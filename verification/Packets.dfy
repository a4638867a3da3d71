/**
 How a message becomes packets for the LED board: escapes are rewritten to control codes, and the text is cut into four
 packets of 64 payload bytes, each with a checksum.
 */
module Packets {
  import opened Text

  const TILDE: Byte := 126
  const MARK: Byte := 0xC0

  // ----- escapes -----

  datatype Escape = Escape(letter: Byte, code: Byte)

  // ~H ~< ~> ~P ~x ~S ~O ~o ~M ~Q ~n, in the order setMessage rewrites them
  const ESCAPES: seq<Escape> := [
    Escape(72, 0x02), Escape(60, 0x04), Escape(62, 0x06), Escape(80, 0x08), Escape(120, 0x0A), Escape(83, 0x0C),
    Escape(79, 0x0E), Escape(111, 0x10), Escape(77, 0x12), Escape(81, 0x14), Escape(110, 0x16)]

  /** Letters and codes are told apart from each other, from the tilde and from the mark. */
  ghost predicate Separate(es: seq<Escape>) {
    && (forall i, j :: 0 <= i < |es| && 0 <= j < |es| ==> es[i].letter != es[j].code)
    && (forall i, j :: 0 <= i < j < |es| ==> es[i].letter != es[j].letter && es[i].code != es[j].code)
    && (forall i :: 0 <= i < |es| ==> Plain(es[i].letter) && Plain(es[i].code))
  }

  predicate Plain(b: Byte) {
    b != TILDE && b != MARK
  }

  function Find(es: seq<Escape>, letter: Byte): (k: nat)
    ensures k <= |es|
    ensures k < |es| ==> es[k].letter == letter
    ensures k == |es| ==> forall i :: 0 <= i < |es| ==> es[i].letter != letter
  {
    if es == [] || es[0].letter == letter then 0 else 1 + Find(es[1..], letter)
  }

  predicate Known(es: seq<Escape>, letter: Byte) {
    Find(es, letter) < |es|
  }

  function CodeOf(es: seq<Escape>, letter: Byte): Byte
    requires Known(es, letter)
  {
    es[Find(es, letter)].code
  }

  /** One left-to-right pass rewriting every escape of `es` at once. With a single escape it is boost::replace_all. */
  function Rewrite(m: seq<Byte>, es: seq<Escape>): (r: seq<Byte>)
    ensures |r| == |m|
  {
    if |m| < 2 then m
    else if m[0] == TILDE && Known(es, m[1]) then [MARK, CodeOf(es, m[1])] + Rewrite(m[2..], es)
    else [m[0]] + Rewrite(m[1..], es)
  }

  /** setMessage: one pass an escape, each over the result of the one before. */
  function Passes(m: seq<Byte>, es: seq<Escape>): (r: seq<Byte>)
    ensures |r| == |m|
    decreases es
  {
    if es == [] then m else Passes(Rewrite(m, [es[0]]), es[1..])
  }

  predicate Hit(m: seq<Byte>, es: seq<Escape>, i: int) {
    0 <= i && i + 1 < |m| && m[i] == TILDE && Known(es, m[i + 1])
  }

  // byte i of the rewritten message
  function RewrittenAt(m: seq<Byte>, es: seq<Escape>, i: nat): Byte
    requires i < |m|
  {
    if Hit(m, es, i) then MARK else if Hit(m, es, i - 1) then CodeOf(es, m[i]) else m[i]
  }

  ghost predicate NoTildeLetters(es: seq<Escape>) {
    forall i :: 0 <= i < |es| ==> es[i].letter != TILDE
  }

  lemma HitShift(m: seq<Byte>, es: seq<Escape>, d: nat, i: int)
    requires d <= |m| && 0 <= i
    ensures Hit(m[d..], es, i) <==> Hit(m, es, i + d)
  {
  }

  lemma {:induction false} RewriteAt(m: seq<Byte>, es: seq<Escape>, i: nat)
    requires i < |m| && NoTildeLetters(es)
    ensures Rewrite(m, es)[i] == RewrittenAt(m, es, i)
    decreases |m|
  {
    if |m| >= 2 {
      if Hit(m, es, 0) {
        if i >= 2 {
          RewriteAt(m[2..], es, i - 2);
          HitShift(m, es, 2, i - 2);
          if i >= 3 { HitShift(m, es, 2, i - 3); }
        }
      } else if i >= 1 {
        RewriteAt(m[1..], es, i - 1);
        HitShift(m, es, 1, i - 1);
        if i >= 2 { HitShift(m, es, 1, i - 2); }
      }
    }
  }

  lemma KnownCons(e: Escape, rest: seq<Escape>, letter: Byte)
    ensures Known([e] + rest, letter) <==> letter == e.letter || Known(rest, letter)
    ensures letter == e.letter ==> CodeOf([e] + rest, letter) == e.code
    ensures letter != e.letter && Known(rest, letter) ==> CodeOf([e] + rest, letter) == CodeOf(rest, letter)
    ensures Known([e], letter) <==> letter == e.letter
  {
    assert ([e] + rest)[1..] == rest && [e][1..] == [];
  }

  // rewriting e first neither hides nor makes an escape of the rest
  lemma HitsSurvive(m: seq<Byte>, e: Escape, rest: seq<Escape>, i: int)
    requires Separate([e] + rest)
    ensures Hit(Rewrite(m, [e]), rest, i) <==> Hit(m, rest, i)
  {
    hide Find, Rewrite;
    var all := [e] + rest;
    assert all[0] == e && forall k :: 0 <= k < |rest| ==> all[k + 1] == rest[k];
    assert Plain(e.letter) && Plain(e.code);
    if 0 <= i && i + 1 < |m| {
      RewriteAt(m, [e], i);
      RewriteAt(m, [e], i + 1);
      KnownCons(e, rest, m[i]);
      KnownCons(e, rest, m[i + 1]);
      if i + 2 < |m| { KnownCons(e, rest, m[i + 2]); }
      assert forall k :: 0 <= k < |rest| ==> rest[k].letter != e.code && rest[k].letter != e.letter;
      assert forall k :: 0 <= k < |rest| ==> Plain(rest[k].letter);
    }
  }

  lemma RewriteInTwo(m: seq<Byte>, e: Escape, rest: seq<Escape>)
    requires Separate([e] + rest)
    ensures Rewrite(Rewrite(m, [e]), rest) == Rewrite(m, [e] + rest)
  {
    hide Find, RewrittenAt;
    var all, m1 := [e] + rest, Rewrite(m, [e]);
    assert all[0] == e && forall k :: 0 <= k < |rest| ==> all[k + 1] == rest[k];
    assert Plain(e.letter) && NoTildeLetters([e]);
    assert forall k :: 0 <= k < |all| ==> Plain(all[k].letter);
    assert NoTildeLetters(rest) && NoTildeLetters(all);
    forall i | 0 <= i < |m| ensures Rewrite(m1, rest)[i] == Rewrite(m, all)[i] {
      RewriteAt(m1, rest, i);
      RewriteAt(m, all, i);
      RewriteAt(m, [e], i);
      SameByte(m, m1, e, rest, i);
    }
  }

  lemma SameByte(m: seq<Byte>, m1: seq<Byte>, e: Escape, rest: seq<Escape>, i: nat)
    requires Separate([e] + rest) && i < |m| && m1 == Rewrite(m, [e]) && m1[i] == RewrittenAt(m, [e], i)
    ensures RewrittenAt(m1, rest, i) == RewrittenAt(m, [e] + rest, i)
  {
    hide Rewrite, Find, Hit, Known, Separate;
    var all := [e] + rest;
    assert all[0] == e;
    HitsSurvive(m, e, rest, i);
    HitsSurvive(m, e, rest, i - 1);
    HitCons(m, e, rest, i);
    HitCons(m, e, rest, i - 1);
    KnownCons(e, rest, m[i]);
    HitsAreLetters(m, e, rest, i);
  }

  lemma HitCons(m: seq<Byte>, e: Escape, rest: seq<Escape>, i: int)
    ensures Hit(m, [e] + rest, i) <==> Hit(m, [e], i) || Hit(m, rest, i)
  {
    hide Find, Known;
    if 0 <= i && i + 1 < |m| {
      KnownCons(e, rest, m[i + 1]);
    }
  }

  // after one escape no other begins
  lemma HitsAreLetters(m: seq<Byte>, e: Escape, rest: seq<Escape>, i: nat)
    requires Separate([e] + rest) && i < |m|
    ensures Hit(m, [e], i - 1) ==> m[i] == e.letter && !Hit(m, rest, i) && !Hit(m, [e], i) && !Known(rest, m[i])
    ensures Hit(m, rest, i - 1) ==> Known(rest, m[i]) && m[i] != e.letter && !Hit(m, [e], i)
    ensures Hit(m, [e], i) ==> m[i] == TILDE
  {
    var all := [e] + rest;
    assert all[0] == e && forall k :: 0 <= k < |rest| ==> all[k + 1] == rest[k];
    KnownCons(e, rest, m[i]);
    if i + 1 < |m| { KnownCons(e, rest, m[i + 1]); }
    assert Plain(all[0].letter);
  }

  /** The passes, one escape at a time, come to the same as rewriting all escapes at once. */
  lemma {:induction false} PassesAreOneRewrite(m: seq<Byte>, es: seq<Escape>)
    requires Separate(es)
    ensures Passes(m, es) == Rewrite(m, es)
    decreases es
  {
    if es == [] {
      NothingToRewrite(m);
    } else {
      assert [es[0]] + es[1..] == es;
      assert Separate(es[1..]) by { assert forall k :: 0 <= k < |es| - 1 ==> es[1..][k] == es[k + 1]; }
      PassesAreOneRewrite(Rewrite(m, [es[0]]), es[1..]);
      RewriteInTwo(m, es[0], es[1..]);
    }
  }

  lemma {:induction false} NothingToRewrite(m: seq<Byte>)
    ensures Rewrite(m, []) == m
  {
    if |m| >= 2 {
      NothingToRewrite(m[1..]);
      assert [m[0]] + m[1..] == m;
    }
  }

  /** The order of the passes does not matter. */
  lemma AnyOrder(m: seq<Byte>, es: seq<Escape>, fs: seq<Escape>)
    requires Separate(es) && Separate(fs) && forall e :: e in es <==> e in fs
    ensures Passes(m, es) == Passes(m, fs)
  {
    PassesAreOneRewrite(m, es);
    PassesAreOneRewrite(m, fs);
    forall letter: Byte
      ensures Known(es, letter) <==> Known(fs, letter)
      ensures Known(es, letter) ==> CodeOf(es, letter) == CodeOf(fs, letter)
    {
      if Known(es, letter) { SameCode(es, fs, letter); }
      if Known(fs, letter) { SameCode(fs, es, letter); }
    }
    SameRewrite(m, es, fs);
  }

  lemma SameCode(es: seq<Escape>, fs: seq<Escape>, letter: Byte)
    requires Separate(fs) && (forall e :: e in es <==> e in fs) && Known(es, letter)
    ensures Known(fs, letter) && CodeOf(fs, letter) == CodeOf(es, letter)
  {
    var e := es[Find(es, letter)];
    assert e in es && e in fs;
    var k :| 0 <= k < |fs| && fs[k] == e;
    assert fs[k].letter == letter;
  }

  lemma {:induction false} SameRewrite(m: seq<Byte>, es: seq<Escape>, fs: seq<Escape>)
    requires forall letter: Byte :: Known(es, letter) <==> Known(fs, letter)
    requires forall letter: Byte :: Known(es, letter) ==> CodeOf(es, letter) == CodeOf(fs, letter)
    ensures Rewrite(m, es) == Rewrite(m, fs)
  {
    if |m| >= 2 {
      SameRewrite(m[1..], es, fs);
      SameRewrite(m[2..], es, fs);
    }
  }

  // the board's reading of a text: mark and code back to tilde and letter
  function Mirror(es: seq<Escape>): (r: seq<Escape>)
    ensures |r| == |es| && forall i :: 0 <= i < |es| ==> r[i] == Escape(es[i].code, es[i].letter)
  {
    seq(|es|, i requires 0 <= i < |es| => Escape(es[i].code, es[i].letter))
  }

  function Unescape(m: seq<Byte>, es: seq<Escape>): seq<Byte> {
    if |m| < 2 then m
    else if m[0] == MARK && Known(Mirror(es), m[1]) then [TILDE, CodeOf(Mirror(es), m[1])] + Unescape(m[2..], es)
    else [m[0]] + Unescape(m[1..], es)
  }

  lemma CodeIsRead(es: seq<Escape>, letter: Byte)
    requires Separate(es) && Known(es, letter)
    ensures Known(Mirror(es), CodeOf(es, letter)) && CodeOf(Mirror(es), CodeOf(es, letter)) == letter
  {
    var k, j := Find(es, letter), Find(Mirror(es), CodeOf(es, letter));
    assert Mirror(es)[k].letter == es[k].code;
    assert j < |es| ==> Mirror(es)[j].letter == es[j].code;
  }

  /** Nothing is lost: a message without the mark byte is recovered from its rewriting. */
  lemma {:induction false} UnescapeInverts(m: seq<Byte>, es: seq<Escape>)
    requires Separate(es) && MARK !in m
    ensures Unescape(Rewrite(m, es), es) == m
  {
    hide Find, Separate;
    if |m| >= 2 {
      if Hit(m, es, 0) {
        CodeIsRead(es, m[1]);
        UnescapeInverts(m[2..], es);
        assert Rewrite(m, es)[2..] == Rewrite(m[2..], es);
        assert [m[0], m[1]] + m[2..] == m;
      } else {
        UnescapeInverts(m[1..], es);
        assert Rewrite(m, es)[1..] == Rewrite(m[1..], es) && Rewrite(m, es)[0] == m[0];
        assert [m[0]] + m[1..] == m;
      }
    }
  }

  // the position of a letter in the table
  function Rank(letter: Byte): int {
    match letter
    case 72 => 0 case 60 => 1 case 62 => 2 case 80 => 3 case 120 => 4 case 83 => 5
    case 79 => 6 case 111 => 7 case 77 => 8 case 81 => 9 case 110 => 10 case _ => -1
  }

  lemma EscapeTable(i: nat)
    requires i < |ESCAPES|
    ensures Rank(ESCAPES[i].letter) == i && ESCAPES[i].code == 2 * i + 2
  {
  }

  lemma EscapesAreSeparate()
    ensures Separate(ESCAPES)
  {
    forall i | 0 <= i < |ESCAPES|
      ensures Rank(ESCAPES[i].letter) == i && ESCAPES[i].code == 2 * i + 2
    {
      EscapeTable(i);
    }
    forall code: Byte | code <= 2 * |ESCAPES| || code == TILDE || code == MARK ensures Rank(code) == -1 {
    }
  }

  /** The eleven escapes by their letters, H < > P x S O o M Q and n: what a tilde and each of them are sent as. */
  lemma EscapesByLetter()
    ensures Rewrite([126, 72], ESCAPES) == [0xC0, 0x02] && Rewrite([126, 60], ESCAPES) == [0xC0, 0x04]
    ensures Rewrite([126, 62], ESCAPES) == [0xC0, 0x06] && Rewrite([126, 80], ESCAPES) == [0xC0, 0x08]
    ensures Rewrite([126, 120], ESCAPES) == [0xC0, 0x0A] && Rewrite([126, 83], ESCAPES) == [0xC0, 0x0C]
    ensures Rewrite([126, 79], ESCAPES) == [0xC0, 0x0E] && Rewrite([126, 111], ESCAPES) == [0xC0, 0x10]
    ensures Rewrite([126, 77], ESCAPES) == [0xC0, 0x12] && Rewrite([126, 81], ESCAPES) == [0xC0, 0x14]
    ensures Rewrite([126, 110], ESCAPES) == [0xC0, 0x16]
    ensures forall b: Byte :: b !in {72, 60, 62, 80, 120, 83, 79, 111, 77, 81, 110} ==>
              Rewrite([126, b], ESCAPES) == [126, b]
  {
    forall i | 0 <= i < |ESCAPES| ensures Rewrite([126, ESCAPES[i].letter], ESCAPES) == [0xC0, ESCAPES[i].code] {
      TwoBytes(i);
    }
    assert ESCAPES[0] == Escape(72, 0x02) && ESCAPES[1] == Escape(60, 0x04) && ESCAPES[2] == Escape(62, 0x06);
    assert ESCAPES[3] == Escape(80, 0x08) && ESCAPES[4] == Escape(120, 0x0A) && ESCAPES[5] == Escape(83, 0x0C);
    assert ESCAPES[6] == Escape(79, 0x0E) && ESCAPES[7] == Escape(111, 0x10) && ESCAPES[8] == Escape(77, 0x12);
    assert ESCAPES[9] == Escape(81, 0x14) && ESCAPES[10] == Escape(110, 0x16);
    forall b: Byte | b !in {72, 60, 62, 80, 120, 83, 79, 111, 77, 81, 110}
      ensures Rewrite([126, b], ESCAPES) == [126, b]
    {
      OtherByte(b);
    }
  }

  lemma TwoBytes(i: nat)
    requires i < |ESCAPES|
    ensures Rewrite([126, ESCAPES[i].letter], ESCAPES) == [0xC0, ESCAPES[i].code]
  {
    hide Find;
    var m := [126, ESCAPES[i].letter];
    EscapesAreSeparate();
    var k := Find(ESCAPES, ESCAPES[i].letter);
    assert k == i;
    assert m[2..] == [] && Rewrite(m, ESCAPES) == [0xC0, ESCAPES[i].code] + Rewrite([], ESCAPES);
  }

  lemma OtherByte(b: Byte)
    requires b !in {72, 60, 62, 80, 120, 83, 79, 111, 77, 81, 110}
    ensures Rewrite([126, b], ESCAPES) == [126, b]
  {
    hide Find;
    var m: seq<Byte> := [126, b];
    var k := Find(ESCAPES, b);
    if k < |ESCAPES| {
      EscapeTable(k);
      assert false;
    }
    assert m[1..] == [b] && [126 as Byte] + [b] == m;
  }

  /** A message as it is sent: at most 250 bytes of it, escapes rewritten. */
  function Trim(message: seq<Byte>): (m: seq<Byte>)
    ensures |m| <= 250
  {
    if |message| > 250 then message[..250] else message
  }

  function Translate(message: seq<Byte>): (m: seq<Byte>)
    ensures |m| == |message|
  {
    Passes(message, ESCAPES)
  }

  /** What setMessage sends is the one simultaneous rewriting, undone by reading marks back. */
  lemma TranslationIsFaithful(message: seq<Byte>)
    ensures Translate(message) == Rewrite(message, ESCAPES)
    ensures MARK !in message ==> Unescape(Translate(message), ESCAPES) == message
  {
    EscapesAreSeparate();
    PassesAreOneRewrite(message, ESCAPES);
    if MARK !in message {
      UnescapeInverts(message, ESCAPES);
    }
  }
}

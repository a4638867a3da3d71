/**
 The byte front end of cli_loop: telnet commands are taken out (RFC 854, section "TELNET COMMAND STRUCTURE"), arrow
 keys become control codes, and carriage returns end lines. One loop does all of it at once.
 */
module Telnet {
  import opened Text
  import opened Wrappers

  const IAC: Byte := 255
  const ESC: Byte := 27
  const BRACKET: Byte := 91
  const CR: Byte := 13
  const LF: Byte := 10

  // ----- the two decoders, one after the other -----

  /** Telnet: the state is 0, 1 after IAC, or the last of WILL, WONT, DO, DONT. */
  function StripOne(option: int, c: Byte): (int, Option<Byte>) {
    if option == 0 then
      if c == IAC then (1, None) else (0, Some(c))
    else if 251 <= c <= 254 then (c, None)
    else if c == IAC then (0, Some(c))
    else (0, None)
  }

  function Control(letter: Byte): Byte {
    if letter == 65 then 16        // A, up: ^P
    else if letter == 66 then 14   // B, down: ^N
    else if letter == 67 then 6    // C, right: ^F
    else if letter == 68 then 2    // D, left: ^B
    else 0
  }

  /** Arrow keys: the state is 0, 1 after ESC, or the bracket after ESC [. NUL and line feed are dropped. */
  function ArrowOne(esc: int, c: Byte): (int, Option<Byte>) {
    if esc == BRACKET then (0, if Control(c) == 0 then None else Some(Control(c)))
    else if esc != 0 then (if c == BRACKET then BRACKET else 0, None)
    else if c == 0 || c == LF then (0, None)
    else if c == ESC then (1, None)
    else (0, Some(c))
  }

  function Strip(option: int, bytes: seq<Byte>): (int, seq<Byte>)
    decreases bytes
  {
    if bytes == [] then (option, [])
    else
      var (option', d) := StripOne(option, bytes[0]);
      var (last, rest) := Strip(option', bytes[1..]);
      (last, Opt(d) + rest)
  }

  function Arrows(esc: int, bytes: seq<Byte>): (int, seq<Byte>)
    decreases bytes
  {
    if bytes == [] then (esc, [])
    else
      var (esc', d) := ArrowOne(esc, bytes[0]);
      var (last, rest) := Arrows(esc', bytes[1..]);
      (last, Opt(d) + rest)
  }

  function Opt(d: Option<Byte>): seq<Byte> {
    if d.None? then [] else [d.value]
  }

  /** The lines completed by carriage returns, and what is left of an unfinished one. */
  function SplitLines(keys: seq<Byte>): (lines: seq<seq<Byte>>)
    ensures lines != []
    decreases keys
  {
    if keys == [] then [[]]
    else
      var rest := SplitLines(keys[1..]);
      if keys[0] == CR then [[]] + rest else [[keys[0]] + rest[0]] + rest[1..]
  }

  // ----- the loop as it is -----

  class FrontEnd {
    var isTelnetOption: int
    var esc: int

    constructor ()
      ensures isTelnetOption == 0 && esc == 0
    {
      isTelnetOption, esc := 0, 0;
    }

    /** One byte read from the socket; the result is the byte the editor gets to see, if any. */
    method Receive(byte: Byte) returns (key: Option<Byte>)
      modifies this
      ensures var (option, d) := StripOne(old(isTelnetOption), byte);
              isTelnetOption == option &&
              if d.None? then esc == old(esc) && key == None
              else (esc, key) == ArrowOne(old(esc), d.value)
    {
      var c := byte;
      if c == IAC && isTelnetOption == 0 {
        isTelnetOption := isTelnetOption + 1;
        return None;
      }
      if isTelnetOption != 0 {
        if 251 <= c <= 254 {
          isTelnetOption := c;
          return None;
        }
        if c != IAC {
          isTelnetOption := 0;
          return None;
        }
        isTelnetOption := 0;
      }
      if esc != 0 {
        if esc == BRACKET {
          match c {
            case 65 => c := 16;
            case 66 => c := 14;
            case 67 => c := 6;
            case 68 => c := 2;
            case _ => c := 0;
          }
          esc := 0;
        } else {
          esc := if c == BRACKET then c else 0;
          return None;
        }
      }
      if c == 0 {
        return None;
      }
      if c == LF {
        return None;
      }
      if c == ESC {
        esc := 1;
        return None;
      }
      return Some(c);
    }

    /** Interleaving the two decoders in one loop is decoding telnet first and arrow keys after. */
    method ReceiveAll(bytes: seq<Byte>) returns (keys: seq<Byte>)
      modifies this
      ensures var (option, data) := Strip(old(isTelnetOption), bytes);
              var (e, ks) := Arrows(old(esc), data);
              isTelnetOption == option && esc == e && keys == ks
    {
      keys := [];
      ghost var data := [];
      for n := 0 to |bytes|
        invariant Strip(old(isTelnetOption), bytes[..n]) == (isTelnetOption, data)
        invariant Arrows(old(esc), data) == (esc, keys)
      {
        assert bytes[..n + 1] == bytes[..n] + [bytes[n]];
        StripSnoc(old(isTelnetOption), bytes[..n], bytes[n]);
        ghost var d := StripOne(isTelnetOption, bytes[n]).1;
        if d.Some? {
          ArrowsSnoc(old(esc), data, d.value);
        }
        assert data + [] == data && keys + [] == keys;
        var key := Receive(bytes[n]);
        keys := keys + if key.None? then [] else [key.value];
        data := data + Opt(d);
      }
      assert bytes[..|bytes|] == bytes;
    }
  }

  lemma {:induction false} StripSnoc(option: int, bytes: seq<Byte>, c: Byte)
    ensures var (o, data) := Strip(option, bytes); var (o', d) := StripOne(o, c);
            Strip(option, bytes + [c]) == (o', data + Opt(d))
    decreases bytes
  {
    if bytes == [] {
      assert [c][1..] == [] && ([] + [c])[0] == c;
      assert Opt(StripOne(option, c).1) + [] == [] + Opt(StripOne(option, c).1);
    } else {
      assert (bytes + [c])[0] == bytes[0] && (bytes + [c])[1..] == bytes[1..] + [c];
      var (option', d) := StripOne(option, bytes[0]);
      StripSnoc(option', bytes[1..], c);
      var (o, data) := Strip(option', bytes[1..]);
      Assoc(Opt(d), data, Opt(StripOne(o, c).1));
    }
  }

  lemma {:induction false} ArrowsSnoc(esc: int, bytes: seq<Byte>, c: Byte)
    ensures var (e, keys) := Arrows(esc, bytes); var (e', d) := ArrowOne(e, c);
            Arrows(esc, bytes + [c]) == (e', keys + Opt(d))
    decreases bytes
  {
    if bytes == [] {
      assert [c][1..] == [] && ([] + [c])[0] == c;
      assert Opt(ArrowOne(esc, c).1) + [] == [] + Opt(ArrowOne(esc, c).1);
    } else {
      assert (bytes + [c])[0] == bytes[0] && (bytes + [c])[1..] == bytes[1..] + [c];
      var (esc', d) := ArrowOne(esc, bytes[0]);
      ArrowsSnoc(esc', bytes[1..], c);
      var (e, keys) := Arrows(esc', bytes[1..]);
      Assoc(Opt(d), keys, Opt(ArrowOne(e, c).1));
    }
  }

  // ----- what a telnet client sends -----

  datatype Item = Data(b: Byte) | Command(code: Byte) | Negotiate(verb: Byte, option: Byte) {
    // codes from 251 up need a third byte; option codes stay below them
    predicate Valid() {
      match this
      case Data(_) => true
      case Command(code) => code < 251
      case Negotiate(verb, option) => 251 <= verb <= 254 && option < 251
    }

    function Wire(): seq<Byte> {
      match this
      case Data(b) => if b == IAC then [IAC, IAC] else [b]
      case Command(code) => [IAC, code]
      case Negotiate(verb, option) => [IAC, verb, option]
    }

    function Carried(): seq<Byte> {
      if Data? then [b] else []
    }
  }

  function WireAll(items: seq<Item>): seq<Byte> {
    if items == [] then [] else items[0].Wire() + WireAll(items[1..])
  }

  function CarriedAll(items: seq<Item>): seq<Byte> {
    if items == [] then [] else items[0].Carried() + CarriedAll(items[1..])
  }

  lemma StripItem(item: Item, rest: seq<Byte>)
    requires item.Valid()
    ensures Strip(0, item.Wire() + rest) == (Strip(0, rest).0, item.Carried() + Strip(0, rest).1)
  {
    var w := item.Wire();
    var all := w + rest;
    assert all[0] == w[0] && all[1..] == w[1..] + rest;
    match item
    case Data(b) =>
      if b == IAC {
        assert w[1..] == [IAC] && ([IAC] + rest)[1..] == rest && ([IAC] + rest)[0] == IAC;
        assert [] + ([IAC] + Strip(0, rest).1) == [IAC] + Strip(0, rest).1;
      } else {
        assert w[1..] + rest == rest;
      }
    case Command(code) =>
      assert w[1..] == [code] && ([code] + rest)[1..] == rest && ([code] + rest)[0] == code;
      assert [] + Strip(0, rest).1 == Strip(0, rest).1;
      assert Strip(1, [code] + rest) == Strip(0, rest);
    case Negotiate(verb, option) =>
      var two := [verb, option] + rest;
      assert w[1..] == [verb, option] && two[0] == verb && two[1..] == [option] + rest;
      assert ([option] + rest)[0] == option && ([option] + rest)[1..] == rest;
      assert [] + Strip(0, rest).1 == Strip(0, rest).1;
      assert Strip(verb, [option] + rest) == Strip(0, rest) && Strip(1, two) == Strip(0, rest);
  }

  /** Telnet decoding inverts telnet encoding: commands and negotiations vanish, doubled 255s become one. */
  lemma {:induction false} StripInverts(items: seq<Item>)
    requires forall i :: 0 <= i < |items| ==> items[i].Valid()
    ensures Strip(0, WireAll(items)) == (0, CarriedAll(items))
  {
    if items != [] {
      StripItem(items[0], WireAll(items[1..]));
      StripInverts(items[1..]);
    }
  }

  /** A negotiation is taken out cleanly exactly when its option code is below 251. */
  lemma NegotiationIsStripped(verb: Byte, option: Byte)
    requires 251 <= verb <= 254
    ensures Strip(0, [IAC, verb, option]) == (0, []) <==> option < 251
  {
    assert [IAC, verb, option][1..] == [verb, option] && [verb, option][1..] == [option] && [option][1..] == [];
    var (o, d) := StripOne(verb, option);
    assert Opt(d) + [] == Opt(d) && [] + Opt(d) == Opt(d);
    assert Strip(verb, [option]) == (o, Opt(d));
    assert Strip(1, [verb, option]) == (o, Opt(d));
    assert Strip(0, [IAC, verb, option]) == (o, Opt(d));
  }

  function Typed(content: seq<Byte>): (items: seq<Item>)
    ensures |items| == |content| && forall i :: 0 <= i < |items| ==> items[i].Valid()
  {
    if content == [] then [] else [Data(content[0])] + Typed(content[1..])
  }

  // IAC SB, the content with its 255s doubled, IAC SE
  function Subnegotiation(content: seq<Byte>): seq<Item> {
    [Command(250)] + Typed(content) + [Command(240)]
  }

  lemma {:induction false} TypedCarries(content: seq<Byte>, after: seq<Item>)
    ensures CarriedAll(Typed(content) + after) == content + CarriedAll(after)
  {
    if content == [] {
      assert Typed(content) + after == after;
    } else {
      var items := Typed(content) + after;
      assert items[0] == Data(content[0]) && items[1..] == Typed(content[1..]) + after;
      TypedCarries(content[1..], after);
      Assoc([content[0]], content[1..], CarriedAll(after));
      assert [content[0]] + content[1..] == content;
    }
  }

  /** A subnegotiation is not taken out: its content is delivered as typed, so only an empty one leaves no trace. */
  lemma SubnegotiationLeaks(content: seq<Byte>)
    ensures Strip(0, WireAll(Subnegotiation(content))) == (0, content)
  {
    var items, rest := Subnegotiation(content), Typed(content) + [Command(240)];
    assert items[0] == Command(250) && items[1..] == rest;
    assert [Command(240)][1..] == [] && CarriedAll([Command(240)]) == [];
    TypedCarries(content, [Command(240)]);
    assert CarriedAll(items) == [] + (content + []) == content;
    StripInverts(items);
  }

  // ----- what a keyboard sends -----

  datatype Stroke = Plain(b: Byte) | Up | Down | Right | Left | Return(after: Option<Byte>) {
    // Return is a carriage return alone or followed by a line feed or a NUL
    predicate Valid() {
      match this
      case Plain(b) => b != 0 && b != LF && b != CR && b != ESC
      case Return(after) => after == None || after == Some(LF) || after == Some(0)
      case _ => true
    }

    function Sent(): seq<Byte> {
      match this
      case Plain(b) => [b]
      case Up => [ESC, BRACKET, 65]
      case Down => [ESC, BRACKET, 66]
      case Right => [ESC, BRACKET, 67]
      case Left => [ESC, BRACKET, 68]
      case Return(after) => [CR] + Opt(after)
    }

    function Key(): Byte {
      match this
      case Plain(b) => b
      case Up => 16
      case Down => 14
      case Right => 6
      case Left => 2
      case Return(_) => CR
    }
  }

  function SentAll(strokes: seq<Stroke>): seq<Byte> {
    if strokes == [] then [] else strokes[0].Sent() + SentAll(strokes[1..])
  }

  function Keys(strokes: seq<Stroke>): seq<Byte> {
    if strokes == [] then [] else [strokes[0].Key()] + Keys(strokes[1..])
  }

  lemma ArrowStroke(stroke: Stroke, rest: seq<Byte>)
    requires stroke.Valid()
    ensures Arrows(0, stroke.Sent() + rest) == (Arrows(0, rest).0, [stroke.Key()] + Arrows(0, rest).1)
  {
    match stroke
    case Plain(b) => assert ([b] + rest)[1..] == rest;
    case Return(after) => ReturnStroke(after, rest);
    case Up => EscapeStroke(65, rest);
    case Down => EscapeStroke(66, rest);
    case Right => EscapeStroke(67, rest);
    case Left => EscapeStroke(68, rest);
  }

  lemma ReturnStroke(after: Option<Byte>, rest: seq<Byte>)
    requires after == None || after == Some(LF) || after == Some(0)
    ensures Arrows(0, [CR] + Opt(after) + rest) == (Arrows(0, rest).0, [CR] + Arrows(0, rest).1)
  {
    var all := [CR] + Opt(after) + rest;
    assert all[0] == CR && all[1..] == Opt(after) + rest;
    if after == None {
      assert all[1..] == rest;
    } else {
      assert all[1..][0] == after.value && all[1..][1..] == rest;
      assert [] + Arrows(0, rest).1 == Arrows(0, rest).1;
    }
  }

  lemma EscapeStroke(letter: Byte, rest: seq<Byte>)
    requires Control(letter) != 0
    ensures Arrows(0, [ESC, BRACKET, letter] + rest) == (Arrows(0, rest).0, [Control(letter)] + Arrows(0, rest).1)
  {
    var all, two, one := [ESC, BRACKET, letter] + rest, [BRACKET, letter] + rest, [letter] + rest;
    assert all[0] == ESC && all[1..] == two && two[0] == BRACKET && two[1..] == one && one[0] == letter
        && one[1..] == rest;
    var keys := [Control(letter)] + Arrows(0, rest).1;
    assert [] + keys == keys;
    assert Arrows(BRACKET, one) == (Arrows(0, rest).0, keys);
    assert Arrows(1, two) == (Arrows(0, rest).0, keys);
  }

  /**
   What else begins with an escape is swallowed: three bytes behind a bracket, whatever the letter, two otherwise. NUL
   and line feed are dropped; every other byte is delivered as it is.
   */
  lemma OthersAreSwallowed(b: Byte, rest: seq<Byte>)
    ensures b !in {65, 66, 67, 68} ==> Arrows(0, [27, 91, b] + rest) == Arrows(0, rest)
    ensures b != 91 ==> Arrows(0, [27, b] + rest) == Arrows(0, rest)
    ensures b != 27 ==>
              Arrows(0, [b] + rest)
              == (Arrows(0, rest).0, if b == 0 || b == 10 then Arrows(0, rest).1 else [b] + Arrows(0, rest).1)
  {
    var all, two, one := [27, 91, b] + rest, [91, b] + rest, [b] + rest;
    assert all[0] == 27 && all[1..] == two && two[0] == 91 && two[1..] == one && one[0] == b && one[1..] == rest;
    assert [] + Arrows(0, rest).1 == Arrows(0, rest).1;
    if Control(b) == 0 {
      assert Arrows(91, one) == Arrows(0, rest) && Arrows(1, two) == Arrows(0, rest);
    }
    if b != 91 {
      assert Arrows(1, one) == Arrows(0, rest) && ([27, b] + rest)[0] == 27 && ([27, b] + rest)[1..] == one;
    }
  }

  lemma {:induction false} ArrowsInvert(strokes: seq<Stroke>)
    requires forall i :: 0 <= i < |strokes| ==> strokes[i].Valid()
    ensures Arrows(0, SentAll(strokes)) == (0, Keys(strokes))
  {
    if strokes != [] {
      ArrowStroke(strokes[0], SentAll(strokes[1..]));
      ArrowsInvert(strokes[1..]);
    }
  }

  /**
   End to end: whatever is typed, sent over telnet with commands and negotiations mixed in anywhere, even inside an
   arrow key's bytes, the editor sees the keys typed and nothing else, and both decoders are back at rest.
   */
  lemma TypedIsSeen(strokes: seq<Stroke>, items: seq<Item>)
    requires forall i :: 0 <= i < |strokes| ==> strokes[i].Valid()
    requires forall i :: 0 <= i < |items| ==> items[i].Valid()
    requires CarriedAll(items) == SentAll(strokes)
    ensures Strip(0, WireAll(items)).0 == 0
    ensures Arrows(0, Strip(0, WireAll(items)).1) == (0, Keys(strokes))
  {
    StripInverts(items);
    ArrowsInvert(strokes);
  }

  // a line's strokes and the Return after it
  function LineStrokes(line: seq<Byte>, after: Option<Byte>): seq<Stroke> {
    if line == [] then [Return(after)] else [Plain(line[0])] + LineStrokes(line[1..], after)
  }

  function AllStrokes(lines: seq<seq<Byte>>, afters: seq<Option<Byte>>): seq<Stroke>
    requires |lines| == |afters|
  {
    if lines == [] then [] else LineStrokes(lines[0], afters[0]) + AllStrokes(lines[1..], afters[1..])
  }

  lemma {:induction false} KeysConcat(a: seq<Stroke>, b: seq<Stroke>)
    ensures Keys(a + b) == Keys(a) + Keys(b)
  {
    if a == [] {
      assert a + b == b;
    } else {
      assert (a + b)[0] == a[0] && (a + b)[1..] == a[1..] + b;
      KeysConcat(a[1..], b);
    }
  }

  lemma {:induction false} LineKeys(line: seq<Byte>, after: Option<Byte>)
    ensures Keys(LineStrokes(line, after)) == line + [CR]
  {
    if line == [] {
      assert [Return(after)][1..] == [] && Keys([]) == [];
      assert [CR] + [] == [] + [CR];
    } else {
      LineKeys(line[1..], after);
      var rest := LineStrokes(line[1..], after);
      assert ([Plain(line[0])] + rest)[1..] == rest;
      assert [line[0]] + (line[1..] + [CR]) == line + [CR];
    }
  }

  lemma {:induction false} SplitOne(line: seq<Byte>, rest: seq<Byte>)
    requires CR !in line
    ensures SplitLines(line + [CR] + rest) == [line] + SplitLines(rest)
    decreases line
  {
    var all := line + [CR] + rest;
    if line == [] {
      assert all[0] == CR && all[1..] == rest;
    } else {
      assert all[0] == line[0] && all[1..] == line[1..] + [CR] + rest;
      SplitOne(line[1..], rest);
      var tail := SplitLines(all[1..]);
      assert tail[0] == line[1..] && tail[1..] == SplitLines(rest);
      assert [line[0]] + line[1..] == line;
    }
  }

  // the keys of some lines, cut at the returns, are the lines
  lemma {:induction false} LinesAreKept(lines: seq<seq<Byte>>, afters: seq<Option<Byte>>)
    requires |lines| == |afters| && forall i :: 0 <= i < |lines| ==> CR !in lines[i]
    ensures SplitLines(Keys(AllStrokes(lines, afters))) == lines + [[]]
  {
    if lines == [] {
      assert Keys(AllStrokes(lines, afters)) == [];
    } else {
      LinesAreKept(lines[1..], afters[1..]);
      var rest := AllStrokes(lines[1..], afters[1..]);
      KeysConcat(LineStrokes(lines[0], afters[0]), rest);
      LineKeys(lines[0], afters[0]);
      SplitOne(lines[0], Keys(rest));
      assert [lines[0]] + (lines[1..] + [[]]) == lines + [[]];
    }
  }

  lemma {:induction false} LineStrokesValid(line: seq<Byte>, after: Option<Byte>)
    requires Return(after).Valid() && forall k :: 0 <= k < |line| ==> Plain(line[k]).Valid()
    ensures forall i :: 0 <= i < |LineStrokes(line, after)| ==> LineStrokes(line, after)[i].Valid()
  {
    if line != [] {
      LineStrokesValid(line[1..], after);
    }
  }

  // lines of plain keys, each with a return a telnet client may send
  ghost predicate Typeable(lines: seq<seq<Byte>>, afters: seq<Option<Byte>>) {
    && |lines| == |afters| && (forall i :: 0 <= i < |afters| ==> Return(afters[i]).Valid())
    && forall i, k :: 0 <= i < |lines| && 0 <= k < |lines[i]| ==> Plain(lines[i][k]).Valid()
  }

  lemma {:induction false} AllStrokesValid(lines: seq<seq<Byte>>, afters: seq<Option<Byte>>)
    requires Typeable(lines, afters)
    ensures forall i :: 0 <= i < |AllStrokes(lines, afters)| ==> AllStrokes(lines, afters)[i].Valid()
  {
    if lines != [] {
      assert forall i :: 0 <= i < |lines| - 1 ==> lines[1..][i] == lines[i + 1] && afters[1..][i] == afters[i + 1];
      AllStrokesValid(lines[1..], afters[1..]);
      LineStrokesValid(lines[0], afters[0]);
    }
  }

  /**
   CR LF, CR NUL and bare CR each end exactly one line: whatever telnet commands are mixed in, the lines typed are the
   lines the editor is given, and nothing is left over.
   */
  lemma LinesAreSubmitted(lines: seq<seq<Byte>>, afters: seq<Option<Byte>>, items: seq<Item>)
    requires Typeable(lines, afters) && forall i :: 0 <= i < |items| ==> items[i].Valid()
    requires CarriedAll(items) == SentAll(AllStrokes(lines, afters))
    ensures SplitLines(Arrows(0, Strip(0, WireAll(items)).1).1) == lines + [[]]
  {
    AllStrokesValid(lines, afters);
    TypedIsSeen(AllStrokes(lines, afters), items);
    forall i | 0 <= i < |lines| ensures CR !in lines[i] {
      assert forall k :: 0 <= k < |lines[i]| ==> Plain(lines[i][k]).Valid();
    }
    LinesAreKept(lines, afters);
  }
}

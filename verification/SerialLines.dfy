/** Serial::readline and Serial::readlines: framing lines out of a port that hands over one byte or times out. */
module SerialLines {
  import opened Text
  import opened Wrappers

  /** What the port will answer to one-byte reads: a byte, or a timeout. Past the end every read times out. */
  type Stream = seq<Option<Byte>>

  class Port {
    var incoming: Stream

    constructor (incoming: Stream)
      ensures this.incoming == incoming
    {
      this.incoming := incoming;
    }

    // read_(buffer, 1)
    method Read() returns (b: Option<Byte>)
      modifies this
      ensures b == if old(incoming) == [] then None else old(incoming)[0]
      ensures incoming == if old(incoming) == [] then [] else old(incoming)[1..]
    {
      if incoming == [] {
        return None;
      }
      b := incoming[0];
      incoming := incoming[1..];
    }

    /** readline: up to `size` bytes, stopping at a timeout and after the end-of-line byte. */
    method Readline(size: nat, eol: Byte) returns (line: seq<Byte>)
      requires size > 0
      modifies this
      ensures (line, incoming) == LineFrom([], old(incoming), size, eol)
    {
      var buffer := new Byte[size](_ => 0);
      var readSoFar := 0;
      while true
        invariant readSoFar < size
        invariant LineFrom(buffer[..readSoFar], incoming, size, eol) == LineFrom([], old(incoming), size, eol)
        decreases size - readSoFar
      {
        var b := Read();
        if b.None? {
          break;
        }
        buffer[readSoFar] := b.value;
        readSoFar := readSoFar + 1;
        assert buffer[..readSoFar] == buffer[..readSoFar - 1] + [b.value];
        if buffer[readSoFar - 1] == eol {
          break;
        }
        if readSoFar == size {
          break;
        }
      }
      line := buffer[..readSoFar];
    }

    /** readlines: the whole transfer in one buffer, cut where lines end. It is readline over and over. */
    method Readlines(size: nat, eol: Byte) returns (lines: seq<seq<Byte>>)
      modifies this
      ensures size > 0 ==> (lines, incoming) == LinesFrom([], old(incoming), size, eol)
      ensures size == 0 ==> lines == [] && incoming == old(incoming)
    {
      hide LinesFrom, LineFrom, Pending;
      lines := [];
      var buffer := new Byte[size](_ => 0);
      var readSoFar, startOfLine := 0, 0;
      ghost var all := if size > 0 then LinesFrom([], incoming, size, eol) else ([], incoming);
      if size > 0 {
        PendingStart(incoming, size, eol);
        assert buffer[0..0] == [];
      }
      while readSoFar < size
        invariant startOfLine <= readSoFar < size || (size == 0 && startOfLine == readSoFar == 0)
        invariant size == 0 ==> lines == [] && incoming == old(incoming)
        invariant eol !in buffer[startOfLine..readSoFar]
        invariant size > 0 ==>
          Pending(all, lines, buffer[startOfLine..readSoFar], incoming, size - startOfLine, eol)
        decreases size - readSoFar
      {
        ghost var current, source, room := buffer[startOfLine..readSoFar], incoming, size - startOfLine;
        var b := Read();
        if b.None? {
          PendingTimeout(all, lines, current, source, room, eol);
          if startOfLine != readSoFar {
            lines := lines + [buffer[startOfLine..readSoFar]];
          }
          return;
        }
        buffer[readSoFar] := b.value;
        readSoFar := readSoFar + 1;
        assert buffer[startOfLine..readSoFar] == current + [b.value];
        PendingByte(all, lines, current, source, room, eol);
        if buffer[readSoFar - 1] == eol {
          lines := lines + [buffer[startOfLine..readSoFar]];
          startOfLine := readSoFar;
          assert buffer[startOfLine..readSoFar] == [];
        }
        if readSoFar == size {
          if startOfLine != readSoFar {
            lines := lines + [buffer[startOfLine..readSoFar]];
          }
          return;
        }
      }
    }
  }

  /** A line begun with `got`, finished from the stream, and the stream after it. */
  function LineFrom(got: seq<Byte>, source: Stream, size: nat, eol: Byte): (r: (seq<Byte>, Stream))
    requires |got| < size
    ensures |got| <= |r.0| <= size && got <= r.0
    ensures |r.1| <= |source| && (source != [] ==> |r.1| < |source|)
    ensures |r.1| + |r.0| <= |source| + |got|
    decreases source
  {
    if source == [] then (got, [])
    else if source[0].None? then (got, source[1..])
    else
      var got' := got + [source[0].value];
      if source[0].value == eol || |got'| == size then (got', source[1..])
      else LineFrom(got', source[1..], size, eol)
  }

  predicate Finished(line: seq<Byte>, eol: Byte) {
    line != [] && line[|line| - 1] == eol
  }

  /** readline repeated with the size that remains, until a line comes back empty or unfinished or none remains. */
  function LinesFrom(got: seq<Byte>, source: Stream, size: nat, eol: Byte): (r: (seq<seq<Byte>>, Stream))
    requires |got| < size
    decreases size
  {
    var (line, rest) := LineFrom(got, source, size, eol);
    if line == [] then ([], rest)
    else if !Finished(line, eol) || |line| == size then ([line], rest)
    else
      var (lines, rest') := LinesFrom([], rest, size - |line|, eol);
      ([line] + lines, rest')
  }

  lemma LinesStep(got: seq<Byte>, source: Stream, size: nat, eol: Byte)
    requires |got| < size && eol !in got && source != [] && source[0].Some?
    ensures var got', rest := got + [source[0].value], source[1..];
            LinesFrom(got, source, size, eol) ==
            if |got'| == size then ([got'], rest)
            else if source[0].value == eol then
              var (lines, rest') := LinesFrom([], rest, size - |got'|, eol); ([got'] + lines, rest')
            else LinesFrom(got', rest, size, eol)
  {
  }

  // `all` is the lines so far and what the line begun with `got` and the rest of the source will give
  ghost predicate Pending(all: (seq<seq<Byte>>, Stream), lines: seq<seq<Byte>>, got: seq<Byte>, source: Stream,
      size: nat, eol: Byte) {
    |got| < size && var (more, rest) := LinesFrom(got, source, size, eol); all == (lines + more, rest)
  }

  lemma PendingStart(source: Stream, size: nat, eol: Byte)
    requires size > 0
    ensures Pending(LinesFrom([], source, size, eol), [], [], source, size, eol)
  {
    var lines := LinesFrom([], source, size, eol).0;
    assert [] + lines == lines;
  }

  lemma PendingTimeout(all: (seq<seq<Byte>>, Stream), lines: seq<seq<Byte>>, got: seq<Byte>, source: Stream,
      size: nat, eol: Byte)
    requires Pending(all, lines, got, source, size, eol) && eol !in got && (source == [] || source[0].None?)
    ensures all == (if got == [] then lines else lines + [got], if source == [] then [] else source[1..])
  {
    assert lines + [] == lines;
  }

  lemma PendingByte(all: (seq<seq<Byte>>, Stream), lines: seq<seq<Byte>>, got: seq<Byte>, source: Stream, size: nat,
      eol: Byte)
    requires Pending(all, lines, got, source, size, eol) && eol !in got && source != [] && source[0].Some?
    ensures var got', rest := got + [source[0].value], source[1..];
            if |got'| == size then all == (lines + [got'], rest)
            else if source[0].value == eol then Pending(all, lines + [got'], [], rest, size - |got'|, eol)
            else Pending(all, lines, got', rest, size, eol)
  {
    var got' := got + [source[0].value];
    LinesStep(got, source, size, eol);
    if |got'| < size && source[0].value == eol {
      Assoc(lines, [got'], LinesFrom([], source[1..], size - |got'|, eol).0);
    }
  }

  // ----- what lines mean -----

  function Bytes(source: Stream): seq<Byte> {
    if source == [] then [] else (if source[0].None? then [] else [source[0].value]) + Bytes(source[1..])
  }

  function Flatten(lines: seq<seq<Byte>>): seq<Byte> {
    if lines == [] then [] else lines[0] + Flatten(lines[1..])
  }

  // the reads made: bytes only, but for a timeout that may come last
  ghost predicate Steady(polls: Stream) {
    forall i :: 0 <= i < |polls| - 1 ==> polls[i].Some?
  }

  /** Every line but the last ends in the end-of-line byte, and it is nowhere else. */
  ghost predicate Framed(lines: seq<seq<Byte>>, eol: Byte) {
    && (forall i :: 0 <= i < |lines| ==> lines[i] != [] && OnlyLast(lines[i], eol))
    && (forall i :: 0 <= i < |lines| - 1 ==> Finished(lines[i], eol))
  }

  ghost predicate OnlyLast(line: seq<Byte>, eol: Byte) {
    forall k :: 0 <= k < |line| - 1 ==> line[k] != eol
  }

  // `line` is what `got` became by reading the first n answers of the source
  ghost predicate Consumed(got: seq<Byte>, source: Stream, line: seq<Byte>, n: nat) {
    n <= |source| && Steady(source[..n]) && line == got + Bytes(source[..n])
  }

  lemma ConsumedMore(got: seq<Byte>, source: Stream, line: seq<Byte>, n: nat)
    requires source != [] && source[0].Some? && Consumed(got + [source[0].value], source[1..], line, n)
    ensures Consumed(got, source, line, n + 1)
  {
    var b, tail := source[0].value, source[1..];
    assert source[..n + 1][1..] == tail[..n] && source[..n + 1][0] == source[0];
    Assoc(got, [b], Bytes(tail[..n]));
    assert forall i :: 0 <= i < n ==> tail[..n][i] == source[..n + 1][i + 1];
  }

  lemma ConsumedNone(got: seq<Byte>, source: Stream)
    ensures Consumed(got, source, got, 0)
  {
    assert got + [] == got;
  }

  lemma ConsumedOne(got: seq<Byte>, source: Stream)
    requires source != []
    ensures Consumed(got, source, if source[0].None? then got else got + [source[0].value], 1)
  {
    assert source[..1][1..] == [] && source[..1][0] == source[0];
    assert got + [] == got && forall b: seq<Byte> :: b + [] == b;
  }

  lemma OnlyLastOne(got: seq<Byte>, b: Byte, eol: Byte)
    requires eol !in got
    ensures OnlyLast(got, eol) && OnlyLast(got + [b], eol) && !Finished(got, eol)
    ensures Finished(got + [b], eol) <==> b == eol
    ensures b != eol ==> eol !in got + [b]
  {
    assert forall k :: 0 <= k < |got| ==> (got + [b])[k] == got[k] && got[k] in got;
  }

  lemma DropShift(source: Stream, n: nat)
    requires n < |source|
    ensures source[1..][n..] == source[n + 1..] && (n > 0 ==> source[1..][n - 1] == source[n])
  {
  }

  /** One readline: it consumes its bytes and at most a closing timeout, and stops at the first reason to. */
  lemma {:induction false} LineConsumes(got: seq<Byte>, source: Stream, size: nat, eol: Byte)
    requires |got| < size && eol !in got
    ensures var (line, rest) := LineFrom(got, source, size, eol);
            var n := |source| - |rest|;
            && n >= 0 && rest == source[n..] && Consumed(got, source, line, n)
            && OnlyLast(line, eol)
            && (Finished(line, eol) || |line| == size || n == |source| || (n > 0 && source[n - 1].None?))
            && (Finished(line, eol) ==> n > 0 && source[n - 1].Some?)
    decreases source
  {
    hide Consumed, Bytes, Steady, OnlyLast, Finished;
    OnlyLastOne(got, if source == [] || source[0].None? then eol else source[0].value, eol);
    if source == [] {
      ConsumedNone(got, source);
    } else if source[0].None? {
      ConsumedOne(got, source);
    } else {
      var got', tail := got + [source[0].value], source[1..];
      if source[0].value == eol || |got'| == size {
        ConsumedOne(got, source);
      } else {
        LineConsumes(got', tail, size, eol);
        var (line, rest) := LineFrom(got', tail, size, eol);
        ConsumedMore(got, source, line, |tail| - |rest|);
        DropShift(source, |tail| - |rest|);
      }
    }
  }

  lemma {:induction false} BytesConcat(a: Stream, b: Stream)
    ensures Bytes(a + b) == Bytes(a) + Bytes(b)
  {
    if a == [] {
      assert a + b == b;
    } else {
      assert (a + b)[0] == a[0] && (a + b)[1..] == a[1..] + b;
      BytesConcat(a[1..], b);
    }
  }

  /**
   What readlines promises of the lines it cut from `source`, leaving `rest`: put together, they are exactly the bytes
   read, at most `size` of them; the end-of-line byte ends lines and is nowhere else; only the last line may lack it;
   and reading stops short of the size only at a timeout.
   */
  ghost predicate Kept(source: Stream, lines: seq<seq<Byte>>, rest: Stream, size: nat, eol: Byte) {
    var n := |source| - |rest|;
    && n >= 0 && rest == source[n..] && Steady(source[..n])
    && Flatten(lines) == Bytes(source[..n]) && |Flatten(lines)| <= size && Framed(lines, eol)
    && (|Flatten(lines)| < size ==> n == |source| || (n > 0 && source[n - 1].None?))
  }

  /** readlines keeps and frames the stream, for any source, size and end-of-line byte. */
  lemma {:induction false} LinesFrameStream(source: Stream, size: nat, eol: Byte)
    requires size > 0
    ensures Kept(source, LinesFrom([], source, size, eol).0, LinesFrom([], source, size, eol).1, size, eol)
    decreases size
  {
    var (line, rest) := LineFrom([], source, size, eol);
    LineConsumes([], source, size, eol);
    if line != [] && Finished(line, eol) && |line| < size {
      LinesFrameStream(rest, size - |line|, eol);
      var (lines, rest') := LinesFrom([], rest, size - |line|, eol);
      OneLineMore(source, line, |source| - |rest|, lines, rest', size, eol);
    } else {
      OneLine(source, line, rest, size, eol);
    }
  }

  lemma OneLine(source: Stream, line: seq<Byte>, rest: Stream, size: nat, eol: Byte)
    requires |rest| <= |source| && rest == source[|source| - |rest|..] && |line| <= size && OnlyLast(line, eol)
    requires Consumed([], source, line, |source| - |rest|)
    requires |line| == size || rest == [] || (|rest| < |source| && source[|source| - |rest| - 1].None?)
    ensures Kept(source, if line == [] then [] else [line], rest, size, eol)
  {
    var n := |source| - |rest|;
    assert [] + Bytes(source[..n]) == Bytes(source[..n]);
    assert [line][1..] == [] && line + [] == line;
    assert Flatten([line]) == line;
  }

  lemma OneLineMore(source: Stream, line: seq<Byte>, n: nat, lines: seq<seq<Byte>>, rest: Stream, size: nat, eol: Byte)
    requires 0 < n <= |source| && source[n - 1].Some? && Consumed([], source, line, n)
    requires Finished(line, eol) && OnlyLast(line, eol) && |line| < size
    requires Kept(source[n..], lines, rest, size - |line|, eol)
    ensures Kept(source, [line] + lines, rest, size, eol)
  {
    hide Bytes, Steady, Framed, OnlyLast, Finished;
    var m := |source| - n - |rest|;
    assert [] + Bytes(source[..n]) == Bytes(source[..n]);
    FrameBytes(source, n, m);
    assert source[n..][m..] == source[n + m..];
    assert ([line] + lines)[1..] == lines;
    FrameMore(line, lines, source, n, m, eol);
    assert m > 0 ==> source[n..][m - 1] == source[n + m - 1];
  }

  lemma FrameBytes(source: Stream, n: nat, m: nat)
    requires n + m <= |source|
    ensures Bytes(source[..n + m]) == Bytes(source[..n]) + Bytes(source[n..][..m])
  {
    assert source[..n + m] == source[..n] + source[n..][..m];
    BytesConcat(source[..n], source[n..][..m]);
  }

  lemma FrameMore(line: seq<Byte>, lines: seq<seq<Byte>>, source: Stream, n: nat, m: nat, eol: Byte)
    requires n + m <= |source| && n > 0 && source[n - 1].Some? && Steady(source[..n]) && Steady(source[n..][..m])
    requires Finished(line, eol) && OnlyLast(line, eol) && Framed(lines, eol)
    ensures Steady(source[..n + m]) && Framed([line] + lines, eol)
  {
    assert forall i :: 0 <= i < n ==> source[..n][i] == source[i];
    forall i | 0 <= i < n + m - 1 ensures source[i].Some? {
      if i >= n { assert source[i] == source[n..][..m][i - n]; }
    }
    var all := [line] + lines;
    assert forall i :: 0 < i < |all| ==> all[i] == lines[i - 1];
  }
}

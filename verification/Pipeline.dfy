/**
 Output filters. libcli pushes one line at a time through a chain of stateful filters and stops at the first
 that rejects it; a reader thinks of each filter as transforming the whole listing. Both views agree.
 */
module Pipeline {
  import opened Text
  import opened Wrappers

  datatype Filter =
    | Match(needle: string, invert: bool)
    | Grep(accepts: string -> bool)
    | Range(matched: bool, from: string, to: Option<string>)
    | Count(n: nat)

  // what reaches the client: a line, or the figure a count filter leaves when it is closed
  datatype Output = Line(text: string) | Figure(n: nat)

  predicate Blank(s: string) {
    forall k :: 0 <= k < |s| ==> IsSpace(s[k])
  }

  predicate Ends(to: Option<string>, line: string) {
    to.Some? && Contains(line, to.value)
  }

  /** One call of a filter: its next state, and whether the line goes on. */
  function Accept(f: Filter, line: string): (Filter, bool) {
    match f
    case Match(needle, invert) => (f, Contains(line, needle) != invert)
    case Grep(accepts) => (f, accepts(line))
    case Range(matched, from, to) =>
      var on := matched || Contains(line, from);
      (Range(on && !Ends(to, line), from, to), on)
    case Count(n) => (if Blank(line) then f else Count(n + 1), false)
  }

  // ----- line at a time -----

  function Push(fs: seq<Filter>, line: string): (seq<Filter>, bool) {
    if fs == [] then (fs, true)
    else
      var (f, on) := Accept(fs[0], line);
      if !on then ([f] + fs[1..], false)
      else
        var (rest, on') := Push(fs[1..], line);
        ([f] + rest, on')
  }

  function PushAll(fs: seq<Filter>, lines: seq<string>): (seq<Filter>, seq<string>)
    decreases lines
  {
    if lines == [] then (fs, [])
    else
      var (fs', on) := Push(fs, lines[0]);
      var (fs'', out) := PushAll(fs', lines[1..]);
      (fs'', (if on then [lines[0]] else []) + out)
  }

  // ----- whole listing at a time -----

  function Stage(f: Filter, lines: seq<string>): (Filter, seq<string>)
    decreases lines
  {
    if lines == [] then (f, [])
    else
      var (f', on) := Accept(f, lines[0]);
      var (f'', out) := Stage(f', lines[1..]);
      (f'', (if on then [lines[0]] else []) + out)
  }

  function Compose(fs: seq<Filter>, lines: seq<string>): (seq<Filter>, seq<string>) {
    if fs == [] then (fs, lines)
    else
      var (f, out) := Stage(fs[0], lines);
      var (rest, out') := Compose(fs[1..], out);
      ([f] + rest, out')
  }

  lemma {:induction false} ComposeOne(fs: seq<Filter>, line: string)
    ensures var (fs', on) := Push(fs, line); Compose(fs, [line]) == (fs', if on then [line] else [])
  {
    if fs == [] {
    } else {
      var (f, on) := Accept(fs[0], line);
      StageOne(fs[0], line);
      if on {
        ComposeOne(fs[1..], line);
      } else {
        ComposeNothing(fs[1..]);
      }
    }
  }

  lemma {:induction false} ComposeNothing(fs: seq<Filter>)
    ensures Compose(fs, []) == (fs, [])
  {
    if fs == [] {
    } else {
      ComposeNothing(fs[1..]);
      assert [fs[0]] + fs[1..] == fs;
    }
  }

  lemma StageOne(f: Filter, line: string)
    ensures var (f', on) := Accept(f, line); Stage(f, [line]) == (f', if on then [line] else [])
  {
    var (f', on) := Accept(f, line);
    assert [line][1..] == [] && Stage(f', []) == (f', []);
    assert (if on then [line] else []) + [] == if on then [line] else [];
  }

  lemma {:induction false} StageConcat(f: Filter, a: seq<string>, b: seq<string>)
    ensures var (f', outA) := Stage(f, a); var (f'', outB) := Stage(f', b);
            Stage(f, a + b) == (f'', outA + outB)
    decreases a
  {
    if a == [] {
      assert a + b == b && [] + Stage(f, b).1 == Stage(f, b).1;
    } else {
      assert (a + b)[0] == a[0] && (a + b)[1..] == a[1..] + b;
      var (f', on) := Accept(f, a[0]);
      StageConcat(f', a[1..], b);
      var (f'', outA) := Stage(f', a[1..]);
      var outB := Stage(f'', b).1;
      var here := if on then [a[0]] else [];
      assert here + (outA + outB) == (here + outA) + outB;
    }
  }

  lemma {:induction false} ComposeConcat(fs: seq<Filter>, a: seq<string>, b: seq<string>)
    ensures var (fs', outA) := Compose(fs, a); var (fs'', outB) := Compose(fs', b);
            Compose(fs, a + b) == (fs'', outA + outB)
  {
    if fs == [] {
    } else {
      var (f, outA) := Stage(fs[0], a);
      var (f', outB) := Stage(f, b);
      StageConcat(fs[0], a, b);
      ComposeConcat(fs[1..], outA, outB);
      var (rest, _) := Compose(fs[1..], outA);
      assert ([f] + rest)[0] == f && ([f] + rest)[1..] == rest;
    }
  }

  /** The short-circuit chain leaves the same states and prints the same lines as composing whole stages. */
  lemma {:induction false} Fusion(fs: seq<Filter>, lines: seq<string>)
    ensures PushAll(fs, lines) == Compose(fs, lines)
    decreases lines
  {
    if lines == [] {
      ComposeNothing(fs);
    } else {
      var (fs', on) := Push(fs, lines[0]);
      Fusion(fs', lines[1..]);
      ComposeOne(fs, lines[0]);
      ComposeConcat(fs, [lines[0]], lines[1..]);
      assert [lines[0]] + lines[1..] == lines;
    }
  }

  lemma {:induction false} PushAllConcat(fs: seq<Filter>, a: seq<string>, b: seq<string>)
    ensures var (fs', outA) := PushAll(fs, a); var (fs'', outB) := PushAll(fs', b);
            PushAll(fs, a + b) == (fs'', outA + outB)
  {
    Fusion(fs, a);
    Fusion(PushAll(fs, a).0, b);
    Fusion(fs, a + b);
    ComposeConcat(fs, a, b);
  }

  // ----- what each stage keeps -----

  /** The lines whose flag is set, in order. */
  function Kept(lines: seq<string>, flags: seq<bool>): seq<string>
    requires |flags| == |lines|
  {
    if lines == [] then [] else (if flags[0] then [lines[0]] else []) + Kept(lines[1..], flags[1..])
  }

  lemma Occurrences(lines: seq<string>, needle: string)
    ensures forall i :: 0 <= i < |lines| ==> (Contains(lines[i], needle) <==> Occurs(needle, lines[i]))
  {
    forall i | 0 <= i < |lines| { ContainsMeaning(lines[i], needle); }
  }

  // a range is open at line i when some line up to i opened it and none since, before i, closed it
  ghost predicate Open(f: Filter, lines: seq<string>, i: nat)
    requires f.Range? && i < |lines|
  {
    || (f.matched && Unended(f.to, lines, 0, i))
    || exists j :: 0 <= j <= i && Occurs(f.from, lines[j]) && Unended(f.to, lines, j, i)
  }

  ghost predicate Unended(to: Option<string>, lines: seq<string>, j: nat, i: nat)
    requires j <= i <= |lines|
  {
    to.Some? ==> forall k :: j <= k < i ==> !Occurs(to.value, lines[k])
  }

  /** begin and between print exactly the lines inside an open range. */
  lemma {:induction false} RangeKeeps(f: Filter, lines: seq<string>, flags: seq<bool>)
    requires f.Range? && |flags| == |lines|
    requires forall i :: 0 <= i < |lines| ==> flags[i] == Open(f, lines, i)
    ensures Stage(f, lines).1 == Kept(lines, flags)
    decreases lines
  {
    hide Contains, Occurs;
    if lines != [] {
      var f' := Accept(f, lines[0]).0;
      forall i | 0 <= i < |lines| - 1 ensures flags[1..][i] == Open(f', lines[1..], i) {
        OpenShift(f, lines, i);
      }
      ContainsMeaning(lines[0], f.from);
      assert flags[0] == (f.matched || Contains(lines[0], f.from));
      RangeKeeps(f', lines[1..], flags[1..]);
    }
  }

  lemma OpenShift(f: Filter, lines: seq<string>, i: nat)
    requires f.Range? && i + 1 < |lines|
    ensures Open(f, lines, i + 1) <==> Open(Accept(f, lines[0]).0, lines[1..], i)
  {
    hide Contains, Occurs;
    var f', tail := Accept(f, lines[0]).0, lines[1..];
    ContainsMeaning(lines[0], f.from);
    if f.to.Some? { ContainsMeaning(lines[0], f.to.value); }
    forall j | 0 <= j <= i ensures Unended(f.to, lines, j + 1, i + 1) <==> Unended(f.to, tail, j, i) {
      assert forall k :: j <= k < i ==> tail[k] == lines[k + 1];
      assert forall k :: j + 1 <= k < i + 1 ==> lines[k] == tail[k - 1];
    }
    assert Unended(f.to, lines, 0, i + 1) <==> !Ends(f.to, lines[0]) && Unended(f.to, lines, 1, i + 1);
    if Open(f', tail, i) && !f'.matched {
      var j :| 0 <= j <= i && Occurs(f.from, tail[j]) && Unended(f.to, tail, j, i);
      assert Occurs(f.from, lines[j + 1]);
    }
    if exists j :: 0 <= j <= i + 1 && Occurs(f.from, lines[j]) && Unended(f.to, lines, j, i + 1) {
      var j :| 0 <= j <= i + 1 && Occurs(f.from, lines[j]) && Unended(f.to, lines, j, i + 1);
      if j > 0 {
        assert Occurs(f.from, tail[j - 1]) && Unended(f.to, tail, j - 1, i);
      }
    }
  }

  /** begin prints the listing from its first matching line on. */
  lemma {:induction false} BeginIsSuffix(from: string, lines: seq<string>, first: nat)
    requires first <= |lines|
    requires forall k :: 0 <= k < first ==> !Occurs(from, lines[k])
    requires first < |lines| ==> Occurs(from, lines[first])
    ensures Stage(Range(false, from, None), lines).1 == lines[first..]
  {
    hide Contains, Occurs;
    Occurrences(lines, from);
    if first > 0 {
      BeginIsSuffix(from, lines[1..], first - 1);
    } else if lines != [] {
      OnceBegun(from, lines[1..]);
    }
  }

  lemma {:induction false} OnceBegun(from: string, lines: seq<string>)
    ensures Stage(Range(true, from, None), lines).1 == lines
  {
    if lines != [] {
      OnceBegun(from, lines[1..]);
    }
  }

  /** include keeps the lines holding the text and exclude keeps the others: together, each line once. */
  lemma {:induction false} IncludeExcludePartition(needle: string, lines: seq<string>, flags: seq<bool>)
    requires |flags| == |lines| && forall i :: 0 <= i < |lines| ==> flags[i] == Occurs(needle, lines[i])
    ensures Stage(Match(needle, false), lines).1 == Kept(lines, flags)
    ensures Stage(Match(needle, true), lines).1 == Kept(lines, seq(|flags|, i requires 0 <= i < |flags| => !flags[i]))
  {
    hide Contains, Occurs;
    if lines != [] {
      ContainsMeaning(lines[0], needle);
      IncludeExcludePartition(needle, lines[1..], flags[1..]);
      assert seq(|flags|, i requires 0 <= i < |flags| => !flags[i])[1..]
          == seq(|flags| - 1, i requires 0 <= i < |flags| - 1 => !flags[1..][i]);
    }
  }

  /** grep and egrep keep the lines their expression accepts. */
  lemma {:induction false} GrepKeeps(accepts: string -> bool, lines: seq<string>, flags: seq<bool>)
    requires |flags| == |lines| && forall i :: 0 <= i < |lines| ==> flags[i] == accepts(lines[i])
    ensures Stage(Grep(accepts), lines) == (Grep(accepts), Kept(lines, flags))
    decreases lines
  {
    if lines != [] {
      GrepKeeps(accepts, lines[1..], flags[1..]);
    }
  }

  // something on the line is not white space
  predicate Inked(line: string) {
    exists k :: 0 <= k < |line| && line[k] as int !in {9, 10, 11, 12, 13, 32}
  }

  function NonBlank(lines: seq<string>): nat {
    if lines == [] then 0 else (if Inked(lines[0]) then 1 else 0) + NonBlank(lines[1..])
  }

  /** A count stage passes nothing on and has counted the non-blank lines that reached it. */
  lemma {:induction false} CountCounts(n: nat, lines: seq<string>)
    ensures Stage(Count(n), lines) == (Count(n + NonBlank(lines)), [])
    decreases lines
  {
    if lines != [] {
      var m := if Blank(lines[0]) then n else n + 1;
      CountCounts(m, lines[1..]);
      assert Accept(Count(n), lines[0]) == (Count(m), false);
      var none: seq<string> := [];
      assert none + none == none;
    }
  }

  // closing a chain: every count filter, in order, prints its figure straight to the client
  function Figures(fs: seq<Filter>): seq<Output> {
    if fs == [] then [] else (if fs[0].Count? then [Figure(fs[0].n)] else []) + Figures(fs[1..])
  }

  function Lines(texts: seq<string>): (out: seq<Output>)
    ensures |out| == |texts| && forall i :: 0 <= i < |texts| ==> out[i] == Line(texts[i])
  {
    seq(|texts|, i requires 0 <= i < |texts| => Line(texts[i]))
  }

  /** Everything a command leaves at the client: the composed stages, then the figures they counted. */
  function Listing(fs: seq<Filter>, lines: seq<string>): seq<Output> {
    var (fs', out) := Compose(fs, lines);
    Lines(out) + Figures(fs')
  }

  lemma CountAlone(lines: seq<string>)
    ensures Listing([Count(0)], lines) == [Figure(NonBlank(lines))]
  {
    hide NonBlank;
    var k := Count(NonBlank(lines));
    CountCounts(0, lines);
    assert [Count(0)][0] == Count(0) && [Count(0)][1..] == [] && [k][0] == k && [k][1..] == [];
    assert Compose([Count(0)], lines) == ([k] + [], []) && [k] + [] == [k];
    assert Figures([k]) == [Figure(k.n)] + Figures([]) && Figures([]) == [];
  }

  /** Two counts: the figures come in the order of the filters, and the second, which nothing reaches, is zero. */
  lemma CountsInOrder(lines: seq<string>)
    ensures Listing([Count(0), Count(0)], lines) == [Figure(NonBlank(lines)), Figure(0)]
  {
    hide NonBlank;
    var two, one, k := [Count(0), Count(0)], [Count(0)], Count(NonBlank(lines));
    CountCounts(0, lines);
    ComposeNothing(one);
    assert two[0] == Count(0) && two[1..] == one;
    assert Compose(two, lines) == ([k] + one, []);
    assert ([k] + one)[0] == k && ([k] + one)[1..] == one && one[1..] == [];
    assert Figures(one) == [Figure(0)] + Figures([]) && Figures([]) == [];
  }

  /** A count behind any stages reports the non-blank lines that get through them. */
  lemma {:induction false} CountAtTheEnd(fs: seq<Filter>, lines: seq<string>)
    requires forall i :: 0 <= i < |fs| ==> !fs[i].Count?
    ensures Listing(fs + [Count(0)], lines) == [Figure(NonBlank(Compose(fs, lines).1))]
  {
    if fs == [] {
      CountAlone(lines);
      assert fs + [Count(0)] == [Count(0)];
    } else {
      var (f, out) := Stage(fs[0], lines);
      StageKeepsKind(fs[0], lines);
      CountAtTheEnd(fs[1..], out);
      assert (fs + [Count(0)])[0] == fs[0] && (fs + [Count(0)])[1..] == fs[1..] + [Count(0)];
      var (rest, out') := Compose(fs[1..] + [Count(0)], out);
      assert ([f] + rest)[0] == f && ([f] + rest)[1..] == rest;
      assert Listing(fs + [Count(0)], lines) == Lines(out') + Figures([f] + rest);
    }
  }

  lemma {:induction false} StageKeepsKind(f: Filter, lines: seq<string>)
    ensures Stage(f, lines).0.Count? == f.Count?
    decreases lines
  {
    if lines != [] {
      StageKeepsKind(Accept(f, lines[0]).0, lines[1..]);
    }
  }

  // ----- printing -----

  function Split(text: string): (lines: seq<string>)
    ensures |lines| >= 1
  {
    if text == [] then [""]
    else
      var rest := Split(text[1..]);
      if text[0] == '\n' then [""] + rest else [[text[0]] + rest[0]] + rest[1..]
  }

  function JoinLines(lines: seq<string>): string
    requires lines != []
  {
    if |lines| == 1 then lines[0] else lines[0] + "\n" + JoinLines(lines[1..])
  }

  /** Splitting is exact: the lines hold no newline and rejoin to the text, even when it ends in one. */
  lemma {:induction false} SplitIsExact(text: string)
    ensures JoinLines(Split(text)) == text
    ensures forall i :: 0 <= i < |Split(text)| ==> '\n' !in Split(text)[i]
  {
    if text != [] {
      SplitIsExact(text[1..]);
      var rest := Split(text[1..]);
      if text[0] == '\n' {
        assert Split(text)[1..] == rest;
      } else {
        assert Split(text)[1..] == rest[1..];
      }
      assert [text[0]] + text[1..] == text;
    }
  }

  lemma {:induction false} SplitAt(text: string, n: nat)
    requires n < |text| && text[n] == '\n' && '\n' !in text[..n]
    ensures Split(text) == [text[..n]] + Split(text[n + 1..])
  {
    if n > 0 {
      assert text[1..][..n - 1] == text[..n][1..] && text[1..][n..] == text[n + 1..];
      assert text[0] == text[..n][0];
      SplitAt(text[1..], n - 1);
      assert [text[0]] + text[1..n] == text[..n];
    }
  }

  lemma {:induction false} SplitNone(text: string)
    requires '\n' !in text
    ensures Split(text) == [text]
  {
    if text != [] {
      SplitNone(text[1..]);
      assert [text[0]] + text[1..] == text;
    }
  }

  // the chain from its f-th filter on, the first f having passed the line
  function PushFrom(fs: seq<Filter>, f: nat, line: string): (seq<Filter>, bool)
    requires f <= |fs|
  {
    var (rest, on) := Push(fs[f..], line);
    (fs[..f] + rest, on)
  }

  lemma PushFromEnds(fs: seq<Filter>, line: string)
    ensures PushFrom(fs, 0, line) == Push(fs, line) && PushFrom(fs, |fs|, line) == (fs, true)
  {
    assert fs[0..] == fs && fs[..0] + Push(fs, line).0 == Push(fs, line).0;
    assert fs[|fs|..] == [] && fs[..|fs|] + [] == fs;
  }

  lemma PushFromStep(fs: seq<Filter>, f: nat, line: string)
    requires f < |fs|
    ensures var (state, on) := Accept(fs[f], line);
            PushFrom(fs, f, line) ==
            if on then PushFrom(fs[f := state], f + 1, line) else (fs[f := state], false)
  {
    var (state, on) := Accept(fs[f], line);
    var rest, fs' := fs[f + 1..], fs[f := state];
    assert fs[f..][0] == fs[f] && fs[f..][1..] == rest && fs'[f + 1..] == rest;
    assert fs'[..f + 1] == fs[..f] + [state];
    if on {
      var tail := Push(rest, line).0;
      assert fs[..f] + ([state] + tail) == fs'[..f + 1] + tail;
    } else {
      assert fs[..f] + ([state] + rest) == fs';
    }
  }

  lemma PushAllOne(fs: seq<Filter>, line: string, rest: seq<string>)
    ensures var (fs', on) := Push(fs, line);
            var (fs'', out) := PushAll(fs', rest);
            PushAll(fs, [line] + rest) == (fs'', (if on then [line] else []) + out)
  {
    assert ([line] + rest)[0] == line && ([line] + rest)[1..] == rest;
  }

  lemma SplitFrom(text: string, p: nat, next: nat)
    requires p <= next <= |text| && '\n' !in text[p..next] && (next < |text| ==> text[next] == '\n')
    ensures Split(text[p..]) == [text[p..next]] + if next == |text| then [] else Split(text[next + 1..])
  {
    if next < |text| {
      assert text[p..][..next - p] == text[p..next] && text[p..][next - p + 1..] == text[next + 1..];
      SplitAt(text[p..], next - p);
    } else {
      assert text[p..next] == text[p..];
      SplitNone(text[p..]);
    }
  }

  lemma PrintStep(fs: seq<Filter>, text: string, p: nat, next: nat)
    requires p <= next <= |text| && '\n' !in text[p..next] && (next < |text| ==> text[next] == '\n')
    ensures var (fs', on) := Push(fs, text[p..next]);
            var here := if on then [text[p..next]] else [];
            PushAll(fs, Split(text[p..])) ==
            if next == |text| then (fs', here)
            else var (fs'', out) := PushAll(fs', Split(text[next + 1..])); (fs'', here + out)
  {
    var line := text[p..next];
    SplitFrom(text, p, next);
    PushAllOne(fs, line, if next == |text| then [] else Split(text[next + 1..]));
    var here := if Push(fs, line).1 then [line] else [];
    assert [line] + [] == [line] && here + [] == here;
  }

  lemma LinesConcat(out: seq<Output>, a: seq<string>, b: seq<string>)
    ensures out + Lines(a) + Lines(b) == out + Lines(a + b)
  {
  }

  class Printer {
    var filters: seq<Filter>
    var output: seq<Output>

    constructor ()
      ensures filters == [] && output == []
    {
      filters, output := [], [];
    }

    // strchr(p, '\n')
    method FindNewline(text: string, p: nat) returns (n: nat)
      requires p <= |text|
      ensures p <= n <= |text| && '\n' !in text[p..n] && (n < |text| ==> text[n] == '\n')
    {
      n := p;
      while n < |text| && text[n] != '\n'
        invariant p <= n <= |text| && '\n' !in text[p..n]
      {
        n := n + 1;
      }
    }

    // the filter loop of _print
    method PushLine(line: string) returns (pass: bool)
      modifies this`filters
      ensures (filters, pass) == Push(old(filters), line)
    {
      pass := true;
      var f := 0;
      PushFromEnds(filters, line);
      while pass && f < |filters|
        invariant f <= |filters| == |old(filters)|
        invariant Push(old(filters), line) == if pass then PushFrom(filters, f, line) else (filters, false)
        decreases |filters| - f
      {
        PushFromStep(filters, f, line);
        var (state, on) := Accept(filters[f], line);
        filters := filters[f := state];
        pass := on;
        f := f + 1;
      }
      if pass {
        PushFromEnds(filters, line);
      }
    }

    /** cli_print: each line of the text goes through the chain on its own. */
    method Print(text: string)
      modifies this
      ensures filters == PushAll(old(filters), Split(text)).0
      ensures output == old(output) + Lines(PushAll(old(filters), Split(text)).1)
    {
      hide PushAll, Push, Split, Lines;
      var p := 0;
      var more := true;
      ghost var all := PushAll(filters, Split(text));
      assert text[0..] == text;
      while more
        invariant p <= |text|
        invariant more ==> all.0 == PushAll(filters, Split(text[p..])).0
        invariant more ==> output + Lines(PushAll(filters, Split(text[p..])).1) == old(output) + Lines(all.1)
        invariant !more ==> filters == all.0 && output == old(output) + Lines(all.1)
        decreases more, |text| - p
      {
        var next := FindNewline(text, p);
        PrintStep(filters, text, p, next);
        ghost var before := output;
        var pass := PushLine(text[p..next]);
        ghost var here := if pass then [text[p..next]] else [];
        if pass {
          output := output + [Line(text[p..next])];
        }
        assert output == before + Lines(here);
        more := next < |text|;
        if more {
          p := next + 1;
          LinesConcat(before, here, PushAll(filters, Split(text[p..])).1);
        }
      }
    }

    /** The last call to every filter once the callback is done: the chain is emptied and counts are printed. */
    method Close()
      modifies this
      ensures filters == []
      ensures output == old(output) + Figures(old(filters))
    {
      while filters != []
        invariant output + Figures(filters) == old(output) + Figures(old(filters))
        decreases |filters|
      {
        var filt := filters[0];
        ghost var before := output;
        if filt.Count? {
          output := output + [Figure(filt.n)];
        }
        filters := filters[1..];
        assert output + Figures(filters)
            == before + ((if filt.Count? then [Figure(filt.n)] else []) + Figures(filters));
      }
    }
  }
}

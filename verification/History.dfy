/** The command history: a fixed array of slots used as a bounded list, and the Up and Down keys over it. */
module History {
  import opened Text
  import opened Wrappers

  const MAX_HISTORY: nat := 256

  /** What cli_add_history does to the list of remembered lines. */
  function Remember(entries: seq<string>, line: string): seq<string> {
    if |entries| < MAX_HISTORY then
      if entries != [] && FoldEq(entries[|entries| - 1], line) then entries else entries + [line]
    else entries[1..] + [line]
  }

  function RememberAll(entries: seq<string>, lines: seq<string>): seq<string>
    decreases lines
  {
    if lines == [] then entries else RememberAll(Remember(entries, lines[0]), lines[1..])
  }

  // Up and Down, as steps around a circle of n entries
  function Previous(h: nat, n: nat): (r: nat)
    requires h < n
    ensures r < n
  {
    if h == 0 then n - 1 else h - 1
  }

  function Next(h: nat, n: nat): (r: nat)
    requires h < n
    ensures r < n
  {
    if h + 1 < n then h + 1 else 0
  }

  /** One back and one on, modulo the number of entries. */
  lemma StepsAroundCircle(h: nat, n: nat)
    requires h < n
    ensures Previous(h, n) == (h - 1) % n && Next(h, n) == (h + 1) % n
  {
    RemainderIs(if h == 0 then -1 else 0, Previous(h, n), n);
    RemainderIs(if h + 1 < n then 0 else 1, Next(h, n), n);
  }

  lemma RemainderIs(k: int, r: nat, n: nat)
    requires r < n && -1 <= k <= 1
    ensures (k * n + r) % n == r
  {
  }

  class HistoryRing {
    const slots: array<Option<string>>
    var inHistory: int
    ghost var entries: seq<string>

    /** The occupied slots are a gap-free prefix holding the entries in order. */
    ghost predicate Valid()
      reads this, slots
    {
      && slots.Length == MAX_HISTORY && |entries| <= MAX_HISTORY
      && forall i :: 0 <= i < MAX_HISTORY ==> slots[i] == if i < |entries| then Some(entries[i]) else None
    }

    constructor ()
      ensures Valid() && fresh(slots) && entries == [] && inHistory == 0
    {
      slots := new Option<string>[MAX_HISTORY](_ => None);
      entries := [];
      inHistory := 0;
    }

    /** cli_add_history */
    method Add(line: string)
      requires Valid()
      modifies this`entries, slots
      ensures Valid() && entries == Remember(old(entries), line)
    {
      var i := 0;
      while i < MAX_HISTORY
        invariant 0 <= i <= |entries| && Valid() && entries == old(entries)
      {
        if slots[i] == None {
          assert i == |entries|;
          if i == 0 || !FoldEq(slots[i - 1].value, line) {
            slots[i] := Some(line);
            entries := entries + [line];
          }
          return;
        }
        i := i + 1;
      }
      DropOldest(line);
    }

    method DropOldest(line: string)
      requires Valid() && |entries| == MAX_HISTORY
      modifies this`entries, slots
      ensures Valid() && entries == old(entries)[1..] + [line]
    {
      for k := 0 to MAX_HISTORY - 1
        invariant slots.Length == MAX_HISTORY == |entries| && entries == old(entries)
        invariant forall j :: 0 <= j < MAX_HISTORY ==> slots[j] == Some(entries[if j < k then j + 1 else j])
      {
        slots[k] := slots[k + 1];
      }
      slots[MAX_HISTORY - 1] := Some(line);
      entries := entries[1..] + [line];
    }

    /** The Up key: one entry back, from the first round to the last. */
    method Up() returns (found: Option<string>)
      requires Valid()
      modifies this`inHistory
      ensures inHistory >= -1 && (entries == [] ==> found == None)
      ensures entries != [] && 0 <= old(inHistory) < |entries| ==>
                inHistory == Previous(old(inHistory), |entries|) && found == Some(entries[inHistory])
    {
      inHistory := inHistory - 1;
      if inHistory < 0 {
        inHistory := MAX_HISTORY - 1;
        while inHistory >= 0 && slots[inHistory] == None
          invariant -1 <= inHistory < MAX_HISTORY && |entries| <= inHistory + 1
          decreases inHistory
        {
          inHistory := inHistory - 1;
        }
        found := if inHistory >= 0 then slots[inHistory] else None;
      } else {
        found := if inHistory < MAX_HISTORY then slots[inHistory] else None;
      }
    }

    /** The Down key: one entry on, from the last round to the first. */
    method Down() returns (found: Option<string>)
      requires Valid() && inHistory >= -1
      modifies this`inHistory
      ensures inHistory >= -1 && (entries == [] ==> found == None)
      ensures entries != [] && 0 <= old(inHistory) < |entries| ==>
                inHistory == Next(old(inHistory), |entries|) && found == Some(entries[inHistory])
    {
      inHistory := inHistory + 1;
      if inHistory >= MAX_HISTORY || slots[inHistory] == None {
        found := None;
        var i := 0;
        while i < MAX_HISTORY
          invariant 0 <= i <= MAX_HISTORY && (entries != [] ==> i == 0)
          invariant found == None
        {
          if slots[i] != None {
            inHistory := i;
            found := slots[i];
            return;
          }
          i := i + 1;
        }
      } else {
        found := slots[inHistory];
      }
    }

    /** Any lines entered, one after another. */
    method AddAll(lines: seq<string>)
      requires Valid()
      modifies this`entries, slots
      ensures Valid() && entries == RememberAll(old(entries), lines)
    {
      ghost var e0 := entries;
      assert lines[0..] == lines;
      for n := 0 to |lines|
        invariant Valid() && RememberAll(entries, lines[n..]) == RememberAll(e0, lines)
      {
        assert lines[n..][1..] == lines[n + 1..];
        Add(lines[n]);
      }
    }
  }

  /** Up and Down undo each other. */
  lemma UpDownUndo(h: nat, n: nat)
    requires h < n
    ensures Next(Previous(h, n), n) == h && Previous(Next(h, n), n) == h
  {
  }

  /** The lines entered without immediate repeats, ignoring case. */
  function Uniq(lines: seq<string>): seq<string> {
    if lines == [] then []
    else
      var n := |lines| - 1;
      Uniq(lines[..n]) + if n > 0 && FoldEq(lines[n - 1], lines[n]) then [] else [lines[n]]
  }

  lemma {:induction false} RememberSnoc(entries: seq<string>, lines: seq<string>, line: string)
    ensures RememberAll(entries, lines + [line]) == Remember(RememberAll(entries, lines), line)
    decreases lines
  {
    if lines == [] {
      assert ([] + [line])[0] == line && ([] + [line])[1..] == [];
    } else {
      assert (lines + [line])[0] == lines[0] && (lines + [line])[1..] == lines[1..] + [line];
      RememberSnoc(Remember(entries, lines[0]), lines[1..], line);
    }
  }

  lemma FoldEqChain(a: string, b: string, c: string)
    requires FoldEq(a, b)
    ensures FoldEq(a, c) <==> FoldEq(b, c)
  {
  }

  // the last line kept is the last line entered, up to case
  lemma {:induction false} UniqEndsLikeLines(lines: seq<string>)
    requires lines != []
    ensures Uniq(lines) != [] && FoldEq(Uniq(lines)[|Uniq(lines)| - 1], lines[|lines| - 1])
  {
    var n := |lines| - 1;
    if n > 0 && FoldEq(lines[n - 1], lines[n]) {
      UniqEndsLikeLines(lines[..n]);
      FoldEqChain(lines[n - 1], lines[n], Uniq(lines)[|Uniq(lines)| - 1]);
      assert Uniq(lines) == Uniq(lines[..n]);
    }
  }

  lemma {:induction false} UniqSnoc(lines: seq<string>, line: string)
    ensures Uniq(lines + [line]) ==
            var kept := Uniq(lines);
            if kept != [] && FoldEq(kept[|kept| - 1], line) then kept else kept + [line]
  {
    assert (lines + [line])[..|lines|] == lines;
    if lines != [] {
      UniqEndsLikeLines(lines);
      FoldEqChain(Uniq(lines)[|Uniq(lines)| - 1], lines[|lines| - 1], line);
      assert Uniq(lines) + [] == Uniq(lines);
    }
  }

  lemma UniqGrows(lines: seq<string>)
    ensures lines != [] ==> |Uniq(lines[..|lines| - 1])| <= |Uniq(lines)|
  {
  }

  /** Until the slots run out, the history is what was entered without immediate repeats. */
  lemma {:induction false} HistoryIsUniq(lines: seq<string>)
    requires lines != [] ==> |Uniq(lines[..|lines| - 1])| < MAX_HISTORY
    ensures RememberAll([], lines) == Uniq(lines)
  {
    if lines != [] {
      var n := |lines| - 1;
      var before, line := lines[..n], lines[n];
      assert lines == before + [line];
      UniqSnoc(before, line);
      UniqGrows(before);
      HistoryIsUniq(before);
      RememberSnoc([], before, line);
    }
  }

  function LastOnes(entries: seq<string>): (r: seq<string>)
    ensures |r| <= MAX_HISTORY
  {
    if |entries| <= MAX_HISTORY then entries else entries[|entries| - MAX_HISTORY..]
  }

  lemma LastOnesSnoc(entries: seq<string>, line: string)
    requires |entries| >= MAX_HISTORY
    ensures LastOnes(entries + [line]) == LastOnes(entries)[1..] + [line]
  {
  }

  /** While it is made of uniq lines, no two neighbours in the history are equal ignoring case. */
  lemma {:induction false} UniqHasNoRepeats(lines: seq<string>, i: nat)
    requires i + 1 < |Uniq(lines)|
    ensures !FoldEq(Uniq(lines)[i], Uniq(lines)[i + 1])
  {
    var before, line := lines[..|lines| - 1], lines[|lines| - 1];
    assert lines == before + [line];
    UniqSnoc(before, line);
    if i + 1 < |Uniq(before)| {
      UniqHasNoRepeats(before, i);
    }
  }

  /** From the line that fills the last slot on, it is the last 256 of those and of every line after. */
  lemma {:induction false} HistoryIsLastOnes(lines: seq<string>, n: nat)
    requires 0 < n <= |lines| && |Uniq(lines[..n - 1])| < MAX_HISTORY == |Uniq(lines[..n])|
    ensures RememberAll([], lines) == LastOnes(Uniq(lines[..n]) + lines[n..])
    ensures |RememberAll([], lines)| == 256
    decreases |lines|
  {
    if n == |lines| {
      assert lines[..n] == lines && Uniq(lines) + lines[n..] == Uniq(lines);
      HistoryIsUniq(lines);
    } else {
      var m := |lines| - 1;
      var before, line := lines[..m], lines[m];
      assert lines == before + [line] && before[..n] == lines[..n] && before[..n - 1] == lines[..n - 1];
      assert before[n..] + [line] == lines[n..];
      HistoryIsLastOnes(before, n);
      RememberSnoc([], before, line);
      Assoc(Uniq(lines[..n]), before[n..], [line]);
      LastOnesSnoc(Uniq(lines[..n]) + before[n..], line);
    }
  }

  /** The history never outgrows its slots. */
  lemma {:induction false} HistoryIsBounded(entries: seq<string>, lines: seq<string>)
    requires |entries| <= 256
    ensures |RememberAll(entries, lines)| <= 256
    decreases lines
  {
    if lines != [] {
      HistoryIsBounded(Remember(entries, lines[0]), lines[1..]);
    }
  }
}

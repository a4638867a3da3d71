/** What a command line runs: which callback, with which arguments, through which filters. */
module DispatchLaws {
  import opened Text
  import opened CommandTree
  import opened AbbrevIndex
  import opened Pipeline
  import opened Interpreter

  // why the walk down the tree ended: at the last word or a leaf, at a word nothing took, or at a question mark
  datatype Ending = Stopped | Mismatch | Helped

  datatype Walked = Walked(path: seq<Cmd>, ending: Ending, mode: nat)

  /** The commands the words name, one level a word, each the only one its word can mean there. */
  ghost function Walk(ns: seq<Cmd>, words: seq<string>, start: nat, last: nat, mode: nat, privilege: int): Walked
    requires start < last <= |words|
    decreases ns
  {
    if EndsInQuery(words[start]) then Walked([], Helped, mode)
    else
      match Choose(ns, words[start], mode, privilege)
      case Nothing => Walked([], Mismatch, mode)
      case Chosen(i, m) =>
        var c := ns[i];
        if c.children == [] || start + 1 == last then Walked([c], Stopped, m)
        else
          var rest := Walk(c.children, words, start + 1, last, m, privilege);
          Walked([c] + rest.path, rest.ending, rest.mode)
  }

  // the deepest command of a path that has a callback, -1 if none
  function Deepest(path: seq<Cmd>): (k: int)
    ensures -1 <= k < |path|
    ensures forall j :: k < j < |path| ==> path[j].callback == NoCallback
    ensures k >= 0 ==> path[k].callback != NoCallback
  {
    if path == [] then -1
    else if path[|path| - 1].callback != NoCallback then |path| - 1
    else Deepest(path[..|path| - 1])
  }

  /** The command whose callback runs: the named one, or, after a word nothing took, the deepest that can. */
  function Target(walked: Walked): (k: int)
    ensures -1 <= k < |walked.path|
  {
    match walked.ending
    case Helped => -1
    case Mismatch => Deepest(walked.path)
    case Stopped => if Deepest(walked.path) == |walked.path| - 1 then |walked.path| - 1 else -1
  }

  // callbacks registered with libcli do not report an argument error
  ghost predicate NeverArgError(host: Host) {
    forall id, args, log :: host.user(id, args, log).rc != ErrorArg
  }

  // w1 is w in another mode, with messages added and no callback run
  ghost predicate Quiet(w: World, w1: World, mode: nat) {
    && w1 == w.(mode := mode, log := w1.log)
    && w.log <= w1.log && forall i :: |w.log| <= i < |w1.log| ==> !w1.log[i].Ran?
  }

  lemma QuietTrans(w: World, w1: World, w2: World, m1: nat, m2: nat)
    requires Quiet(w, w1, m1) && Quiet(w1, w2, m2)
    ensures Quiet(w, w2, m2)
  {
  }

  function Below(c: Cmd, rest: Walked): Walked {
    Walked([c] + rest.path, rest.ending, rest.mode)
  }

  lemma {:induction false} DeepestCons(c: Cmd, path: seq<Cmd>)
    ensures Deepest([c] + path) ==
            if Deepest(path) >= 0 then Deepest(path) + 1 else if c.callback != NoCallback then 0 else -1
  {
    var all := [c] + path;
    if path == [] {
      assert all == [c] && all[..0] == [];
    } else {
      assert all[|path|] == path[|path| - 1] && all[..|path|] == [c] + path[..|path| - 1];
      DeepestCons(c, path[..|path| - 1]);
    }
  }

  lemma TargetBelow(c: Cmd, rest: Walked)
    requires rest.ending == Stopped ==> rest.path != []
    ensures Target(Below(c, rest)) ==
            if Target(rest) >= 0 then Target(rest) + 1
            else if rest.ending == Mismatch && c.callback != NoCallback then 0 else -1
  {
    DeepestCons(c, rest.path);
  }

  lemma {:induction false} PrintOnly(w: World, texts: seq<string>)
    ensures var w' := PrintAll(w, texts); w' == w.(filters := w'.filters, output := w'.output)
    decreases texts
  {
    if texts != [] {
      PrintOnly(w.Print(texts[0]), texts[1..]);
    }
  }

  lemma ExecuteNeverArgError(host: Host, w: World, c: Cmd, args: seq<string>, words: seq<string>, marks: seq<nat>)
    requires GoodMarks(words, marks) && NeverArgError(host)
    ensures Execute(host, w, c, args, words, marks).1 != ErrorArg
  {
    hide PrintAll, CallAll, FilterArgs;
    SetupRc(host, FilterArgs(words, marks), true, w.filters);
  }

  lemma {:induction false} SetupRc(host: Host, argvs: seq<seq<string>>, first: bool, chain: seq<Filter>)
    ensures var s := SetupChain(host, argvs, first, chain); s.Abandoned? ==> s.rc != ErrorArg && s.rc != Quitting
    decreases argvs
  {
    if argvs != [] {
      var turn := FilterTurn(host, argvs[0], first, chain);
      if turn.More? {
        SetupRc(host, argvs[1..], false, turn.chain);
      }
    }
  }

  // the outcome of a dispatch whose walk is known
  ghost predicate Outcome(host: Host, w: World, r: (World, Rc), walked: Walked, words: seq<string>, start: nat,
      marks: seq<nat>)
    requires GoodMarks(words, marks) && start + |walked.path| <= CommandWords(words, marks)
  {
    var k := Target(walked);
    if k < 0 then Quiet(w, r.0, walked.mode) && (r.1 == ErrorArg <==> walked.ending == Mismatch)
    else r.1 != ErrorArg && exists w1 ::
      && Quiet(w, w1, walked.mode)
      && r == Execute(host, w1, walked.path[k], words[start + k + 1..CommandWords(words, marks)], words, marks)
  }

  lemma {:induction false} WalkFits(ns: seq<Cmd>, words: seq<string>, start: nat, last: nat, mode: nat, privilege: int)
    requires start < last <= |words|
    ensures var walked := Walk(ns, words, start, last, mode, privilege);
            start + |walked.path| <= last && (walked.ending == Stopped ==> walked.path != [])
    decreases ns
  {
    if !EndsInQuery(words[start]) {
      var r := Choose(ns, words[start], mode, privilege);
      if r.Chosen? && ns[r.i].children != [] && start + 1 < last {
        WalkFits(ns[r.i].children, words, start + 1, last, r.mode, privilege);
      }
    }
  }

  /**
   A command line runs at most one callback: that of the walk's target, with every word after it and before the
   first pipe as arguments, through the filters the pipes name. If the walk has no target, nothing runs.
   */
  lemma {:induction false} DispatchRunsTarget(host: Host, w: World, ns: seq<Cmd>, words: seq<string>, start: nat,
      marks: seq<nat>)
    requires GoodMarks(words, marks) && start < CommandWords(words, marks) && NeverArgError(host)
    ensures var walked := Walk(ns, words, start, CommandWords(words, marks), w.mode, w.privilege);
            && start + |walked.path| <= CommandWords(words, marks)
            && Outcome(host, w, Dispatch(host, w, ns, words, start, marks), walked, words, start, marks)
    decreases ns
  {
    hide Execute, RunOrComplain, Retry, Choose, Deepest, HelpNames;
    var last := CommandWords(words, marks);
    WalkFits(ns, words, start, last, w.mode, w.privilege);
    var choice := Choose(ns, words[start], w.mode, w.privilege);
    if !EndsInQuery(words[start]) && choice.Chosen? {
      var c := ns[choice.i];
      var w1 := if choice.mode == w.mode then w else w.WithMode(choice.mode);
      assert Quiet(w, w1, choice.mode);
      if c.children == [] || start + 1 == last {
        StopHere(host, w, w1, c, choice.mode, words, start, marks);
      } else {
        DispatchRunsTarget(host, w1, c.children, words, start + 1, marks);
        WalkFits(c.children, words, start + 1, last, choice.mode, w.privilege);
        var r := Dispatch(host, w1, c.children, words, start + 1, marks);
        var rest := Walk(c.children, words, start + 1, last, choice.mode, w.privilege);
        OneLevelUp(host, w, w1, r, c, rest, choice.mode, words, start, marks);
      }
    }
  }

  lemma StopHere(host: Host, w: World, w1: World, c: Cmd, mode: nat, words: seq<string>, start: nat, marks: seq<nat>)
    requires GoodMarks(words, marks) && start < CommandWords(words, marks) && Quiet(w, w1, mode) && NeverArgError(host)
    ensures var r := RunOrComplain(host, w1, c, words, start, marks);
            Outcome(host, w, r, Walked([c], Stopped, mode), words, start, marks)
  {
    hide Execute;
    DeepestCons(c, []);
    assert [c] + [] == [c];
    ExecuteNeverArgError(host, w1, c, words[start + 1..CommandWords(words, marks)], words, marks);
  }

  lemma OneLevelUp(host: Host, w: World, w1: World, r: (World, Rc), c: Cmd, rest: Walked, mode: nat,
      words: seq<string>, start: nat, marks: seq<nat>)
    requires GoodMarks(words, marks) && start + 1 + |rest.path| <= CommandWords(words, marks) && NeverArgError(host)
    requires Quiet(w, w1, mode) && (rest.ending == Stopped ==> rest.path != [])
    requires Outcome(host, w1, r, rest, words, start + 1, marks)
    ensures var r' := if r.1 == ErrorArg then Retry(host, r.0, c, words, start, marks) else r;
            Outcome(host, w, r', Below(c, rest), words, start, marks)
  {
    hide Execute;
    TargetBelow(c, rest);
    if Target(rest) >= 0 {
      var v := RunBelow(host, w1, r, rest, words, start + 1, marks);
      PassUp(host, w, w1, v, r, c, rest, mode, words, start, marks);
    } else {
      ComeBack(host, w, w1, r, c, rest, mode, words, start, marks);
    }
  }

  lemma ComeBack(host: Host, w: World, w1: World, r: (World, Rc), c: Cmd, rest: Walked, mode: nat,
      words: seq<string>, start: nat, marks: seq<nat>)
    requires GoodMarks(words, marks) && start + 1 + |rest.path| <= CommandWords(words, marks) && NeverArgError(host)
    requires Quiet(w, w1, mode) && Quiet(w1, r.0, rest.mode) && (r.1 == ErrorArg <==> rest.ending == Mismatch)
    requires Target(Below(c, rest)) == if rest.ending == Mismatch && c.callback != NoCallback then 0 else -1
    ensures var r' := if r.1 == ErrorArg then Retry(host, r.0, c, words, start, marks) else r;
            Outcome(host, w, r', Below(c, rest), words, start, marks)
  {
    hide Execute;
    QuietTrans(w, w1, r.0, mode, rest.mode);
    assert Below(c, rest).path[0] == c;
    ExecuteNeverArgError(host, r.0, c, words[start + 1..CommandWords(words, marks)], words, marks);
  }

  lemma PassUp(host: Host, w: World, w1: World, v: World, r: (World, Rc), c: Cmd, rest: Walked, mode: nat,
      words: seq<string>, start: nat, marks: seq<nat>)
    requires GoodMarks(words, marks) && start + 1 + |rest.path| <= CommandWords(words, marks)
    requires Quiet(w, w1, mode) && Quiet(w1, v, rest.mode)
    requires Target(rest) >= 0 && Target(Below(c, rest)) == Target(rest) + 1
    requires var k := Target(rest);
             r == Execute(host, v, rest.path[k], words[start + 1 + k + 1..CommandWords(words, marks)], words, marks)
    requires r.1 != ErrorArg
    ensures Outcome(host, w, r, Below(c, rest), words, start, marks)
  {
    hide Execute;
    QuietTrans(w, w1, v, mode, rest.mode);
    assert Below(c, rest).path[Target(rest) + 1] == rest.path[Target(rest)];
  }

  lemma RunBelow(host: Host, w: World, r: (World, Rc), walked: Walked, words: seq<string>, start: nat,
      marks: seq<nat>) returns (v: World)
    requires GoodMarks(words, marks) && start + |walked.path| <= CommandWords(words, marks)
    requires Outcome(host, w, r, walked, words, start, marks) && Target(walked) >= 0
    ensures Quiet(w, v, walked.mode) && r.1 != ErrorArg
    ensures var k := Target(walked);
            r == Execute(host, v, walked.path[k], words[start + k + 1..CommandWords(words, marks)], words, marks)
  {
    hide Execute;
    var k := Target(walked);
    v :| Quiet(w, v, walked.mode)
         && r == Execute(host, v, walked.path[k], words[start + k + 1..CommandWords(words, marks)], words, marks);
  }

  // ----- respelling -----

  // the first n words are taken by the same commands in both lists, and the words after them are the same
  ghost predicate SamePath(ns: seq<Cmd>, a: seq<string>, b: seq<string>, start: nat, last: nat, n: nat, mode: nat,
      privilege: int)
    requires start < last <= |a| == |b|
    decreases ns
  {
    if n == 0 then a[start..] == b[start..]
    else
      && !EndsInQuery(a[start]) && !EndsInQuery(b[start])
      && Choose(ns, a[start], mode, privilege) == Choose(ns, b[start], mode, privilege)
      && a[last..] == b[last..]
      && match Choose(ns, a[start], mode, privilege)
         case Nothing => false
         case Chosen(i, m) =>
           if ns[i].children == [] || start + 1 == last then a[start + 1..] == b[start + 1..]
           else SamePath(ns[i].children, a, b, start + 1, last, n - 1, m, privilege)
  }

  lemma SliceSame(a: seq<string>, b: seq<string>, from: nat, to: nat)
    requires from <= to <= |a| == |b| && a[from..] == b[from..]
    ensures a[from..to] == b[from..to] && a[to..] == b[to..] && (from < |a| ==> a[from] == b[from])
  {
    assert a[from..to] == a[from..][..to - from] && b[from..to] == b[from..][..to - from];
    assert a[to..] == a[from..][to - from..] && b[to..] == b[from..][to - from..];
    if from < |a| { assert a[from] == a[from..][0] && b[from] == b[from..][0]; }
  }

  lemma FilterWordsSame(a: seq<string>, b: seq<string>, marks: seq<nat>, f: nat)
    requires GoodMarks(a, marks) && |a| == |b| && f < |marks| && a[marks[0]..] == b[marks[0]..]
    ensures FilterWords(a, marks, f) == FilterWords(b, marks, f)
  {
    SliceSame(a, b, marks[0], marks[f] + 1);
    SliceSame(a, b, marks[f] + 1, if f + 1 < |marks| then marks[f + 1] else |a|);
  }

  lemma ExecuteSame(host: Host, w: World, c: Cmd, args: seq<string>, a: seq<string>, b: seq<string>, marks: seq<nat>)
    requires GoodMarks(a, marks) && |a| == |b| && a[CommandWords(a, marks)..] == b[CommandWords(a, marks)..]
    ensures Execute(host, w, c, args, a, marks) == Execute(host, w, c, args, b, marks)
  {
    forall f | 0 <= f < |marks| { FilterWordsSame(a, b, marks, f); }
    assert FilterArgs(a, marks) == FilterArgs(b, marks);
  }

  lemma {:induction false} SameWordsSameDispatch(host: Host, w: World, ns: seq<Cmd>, a: seq<string>, b: seq<string>,
      start: nat, marks: seq<nat>)
    requires GoodMarks(a, marks) && |a| == |b| && start < CommandWords(a, marks) && a[start..] == b[start..]
    ensures Dispatch(host, w, ns, a, start, marks) == Dispatch(host, w, ns, b, start, marks)
    decreases ns
  {
    var last := CommandWords(a, marks);
    SliceSame(a, b, start, last);
    var choice := Choose(ns, a[start], w.mode, w.privilege);
    if !EndsInQuery(a[start]) && choice.Chosen? {
      var c := ns[choice.i];
      var w1 := if choice.mode == w.mode then w else w.WithMode(choice.mode);
      SliceSame(a, b, start, start + 1);
      EnterSame(host, w1, c, a, b, start, marks);
    }
  }

  lemma {:induction false} EnterSame(host: Host, w: World, c: Cmd, a: seq<string>, b: seq<string>, start: nat,
      marks: seq<nat>)
    requires GoodMarks(a, marks) && |a| == |b| && start < CommandWords(a, marks)
    requires a[start + 1..] == b[start + 1..] && a[start] == b[start]
    ensures Enter(host, w, c, a, start, marks) == Enter(host, w, c, b, start, marks)
    decreases c
  {
    hide Execute;
    var last := CommandWords(a, marks);
    SliceSame(a, b, start + 1, last);
    var args := a[start + 1..last];
    if c.children == [] || start + 1 == last {
      ExecuteSame(host, w, c, args, a, b, marks);
    } else {
      SameWordsSameDispatch(host, w, c.children, a, b, start + 1, marks);
      ExecuteSame(host, Dispatch(host, w, c.children, a, start + 1, marks).0, c, args, a, b, marks);
    }
  }

  /**
   Replacing words on the path down to the command that runs by other spellings that are taken by the same
   commands changes nothing at all: same callback, same arguments, same filters, same messages.
   */
  lemma {:induction false} RespellingChangesNothing(
    host: Host, w: World, ns: seq<Cmd>, a: seq<string>, b: seq<string>, start: nat, marks: seq<nat>, n: nat)
    requires GoodMarks(a, marks) && |a| == |b| && start < CommandWords(a, marks) && NeverArgError(host)
    requires SamePath(ns, a, b, start, CommandWords(a, marks), n, w.mode, w.privilege)
    requires n == Target(Walk(ns, a, start, CommandWords(a, marks), w.mode, w.privilege)) + 1
    ensures Dispatch(host, w, ns, a, start, marks) == Dispatch(host, w, ns, b, start, marks)
    decreases ns
  {
    hide Execute, Dispatch, Enter, Walk, Target, Choose;
    if n == 0 {
      SameWordsSameDispatch(host, w, ns, a, b, start, marks);
    } else {
      var last := CommandWords(a, marks);
      var choice := Choose(ns, a[start], w.mode, w.privilege);
      var c := ns[choice.i];
      var w1 := if choice.mode == w.mode then w else w.WithMode(choice.mode);
      OneWordDown(ns, a, b, start, last, n, w.mode, w.privilege);
      if c.children == [] || start + 1 == last {
        RunSame(host, w1, c, a, b, start, marks);
      } else {
        RespellingChangesNothing(host, w1, c.children, a, b, start + 1, marks, n - 1);
        DeeperRespelled(host, w1, c, a, b, start, marks);
      }
      TakenAlike(host, w, ns, a, b, start, marks);
    }
  }

  /** For n words, both lists spell the same commands, each in its own way, and after that they are the same. */
  ghost predicate Respelled(ns: seq<Cmd>, a: seq<string>, b: seq<string>, start: nat, last: nat, n: nat, mode: nat,
      privilege: int)
    requires start < last <= |a| == |b|
    decreases ns
  {
    if n == 0 then a[start..] == b[start..]
    else
      && !EndsInQuery(a[start]) && !EndsInQuery(b[start]) && a[last..] == b[last..]
      && exists i: nat, m: nat ::
           && i < |ns| && Means(ns, i, m, a[start], mode, privilege) && Means(ns, i, m, b[start], mode, privilege)
           && if ns[i].children == [] || start + 1 == last then a[start + 1..] == b[start + 1..]
              else Respelled(ns[i].children, a, b, start + 1, last, n - 1, m, privilege)
  }

  lemma {:induction false} RespelledTakesSamePath(
    ns: seq<Cmd>, a: seq<string>, b: seq<string>, start: nat, last: nat, n: nat, mode: nat, privilege: int)
    requires WellNamed(ns) && start < last <= |a| == |b| && Respelled(ns, a, b, start, last, n, mode, privilege)
    ensures SamePath(ns, a, b, start, last, n, mode, privilege)
    decreases ns
  {
    hide Choose, Means;
    if n > 0 {
      var i: nat, m: nat :|
        && i < |ns| && Means(ns, i, m, a[start], mode, privilege) && Means(ns, i, m, b[start], mode, privilege)
        && if ns[i].children == [] || start + 1 == last then a[start + 1..] == b[start + 1..]
           else Respelled(ns[i].children, a, b, start + 1, last, n - 1, m, privilege);
      ChosenIsMeant(ns, i, m, a[start], mode, privilege);
      ChosenIsMeant(ns, i, m, b[start], mode, privilege);
      if ns[i].children != [] && start + 1 < last {
        RespelledTakesSamePath(ns[i].children, a, b, start + 1, last, n - 1, m, privilege);
      }
    }
  }

  /**
   Any unambiguous spellings, in any case, of the words down to the command that runs: same callback, same arguments,
   same filters, same messages.
   */
  lemma UnambiguousSpellings(
    host: Host, w: World, ns: seq<Cmd>, a: seq<string>, b: seq<string>, start: nat, marks: seq<nat>, n: nat)
    requires GoodMarks(a, marks) && |a| == |b| && start < CommandWords(a, marks) && NeverArgError(host) && WellNamed(ns)
    requires Respelled(ns, a, b, start, CommandWords(a, marks), n, w.mode, w.privilege)
    requires n == Target(Walk(ns, a, start, CommandWords(a, marks), w.mode, w.privilege)) + 1
    ensures Dispatch(host, w, ns, a, start, marks) == Dispatch(host, w, ns, b, start, marks)
  {
    hide Execute, Dispatch, Walk, SamePath, Respelled, Choose;
    RespelledTakesSamePath(ns, a, b, start, CommandWords(a, marks), n, w.mode, w.privilege);
    RespellingChangesNothing(host, w, ns, a, b, start, marks, n);
  }

  lemma OneWordDown(ns: seq<Cmd>, a: seq<string>, b: seq<string>, start: nat, last: nat, n: nat, mode: nat,
      privilege: int)
    requires start < last <= |a| == |b| && n > 0
    requires SamePath(ns, a, b, start, last, n, mode, privilege)
    requires n == Target(Walk(ns, a, start, last, mode, privilege)) + 1
    ensures !EndsInQuery(a[start]) && !EndsInQuery(b[start])
    ensures Choose(ns, a[start], mode, privilege).Chosen?
    ensures Choose(ns, a[start], mode, privilege) == Choose(ns, b[start], mode, privilege)
    ensures var choice := Choose(ns, a[start], mode, privilege);
            var c := ns[choice.i];
            if c.children == [] || start + 1 == last then a[start + 1..] == b[start + 1..]
            else
              var rest := Walk(c.children, a, start + 1, last, choice.mode, privilege);
              && SamePath(c.children, a, b, start + 1, last, n - 1, choice.mode, privilege)
              && n - 1 == Target(rest) + 1
              && (Target(rest) < 0 ==>
                    a[start + 1..] == b[start + 1..] && (c.callback != NoCallback || rest.ending != Mismatch))
  {
    var choice := Choose(ns, a[start], mode, privilege);
    var c := ns[choice.i];
    if c.children != [] && start + 1 < last {
      var rest := Walk(c.children, a, start + 1, last, choice.mode, privilege);
      WalkFits(c.children, a, start + 1, last, choice.mode, privilege);
      TargetBelow(c, rest);
    }
  }

  lemma TakenAlike(host: Host, w: World, ns: seq<Cmd>, a: seq<string>, b: seq<string>, start: nat, marks: seq<nat>)
    requires GoodMarks(a, marks) && |a| == |b| && start < CommandWords(a, marks)
    requires !EndsInQuery(a[start]) && !EndsInQuery(b[start])
    requires Choose(ns, a[start], w.mode, w.privilege) == Choose(ns, b[start], w.mode, w.privilege)
    requires var choice := Choose(ns, a[start], w.mode, w.privilege);
             choice.Chosen? &&
             var w1 := if choice.mode == w.mode then w else w.WithMode(choice.mode);
             Enter(host, w1, ns[choice.i], a, start, marks) == Enter(host, w1, ns[choice.i], b, start, marks)
    ensures Dispatch(host, w, ns, a, start, marks) == Dispatch(host, w, ns, b, start, marks)
  {
    hide Execute;
  }

  lemma DeeperRespelled(host: Host, w: World, c: Cmd, a: seq<string>, b: seq<string>, start: nat, marks: seq<nat>)
    requires GoodMarks(a, marks) && |a| == |b| && start + 1 < CommandWords(a, marks) && NeverArgError(host)
    requires c.children != []
    requires Dispatch(host, w, c.children, a, start + 1, marks) == Dispatch(host, w, c.children, b, start + 1, marks)
    requires var rest := Walk(c.children, a, start + 1, CommandWords(a, marks), w.mode, w.privilege);
             Target(rest) < 0 ==>
               a[start + 1..] == b[start + 1..] && (c.callback != NoCallback || rest.ending != Mismatch)
    ensures Enter(host, w, c, a, start, marks) == Enter(host, w, c, b, start, marks)
  {
    hide Execute, Dispatch, Enter, Walk, Target, Outcome, NeverArgError;
    var rest := Walk(c.children, a, start + 1, CommandWords(a, marks), w.mode, w.privilege);
    DispatchRunsTarget(host, w, c.children, a, start + 1, marks);
    EnterRespelled(host, w, c, rest, a, b, start, marks);
  }

  lemma RunSame(host: Host, w: World, c: Cmd, a: seq<string>, b: seq<string>, start: nat, marks: seq<nat>)
    requires GoodMarks(a, marks) && |a| == |b| && start < CommandWords(a, marks) && a[start + 1..] == b[start + 1..]
    requires c.children == [] || start + 1 == CommandWords(a, marks)
    ensures Enter(host, w, c, a, start, marks) == Enter(host, w, c, b, start, marks)
  {
    hide Execute;
    var last := CommandWords(a, marks);
    SliceSame(a, b, start + 1, last);
    ExecuteSame(host, w, c, a[start + 1..last], a, b, marks);
  }

  lemma RetryRespelled(host: Host, w: World, r: (World, Rc), c: Cmd, rest: Walked, a: seq<string>, b: seq<string>,
      start: nat, marks: seq<nat>)
    requires GoodMarks(a, marks) && |a| == |b| && start + 1 < CommandWords(a, marks)
    requires start + 1 + |rest.path| <= CommandWords(a, marks)
    requires Outcome(host, w, r, rest, a, start + 1, marks)
    requires Target(rest) < 0 ==>
               a[start + 1..] == b[start + 1..] && (c.callback != NoCallback || rest.ending != Mismatch)
    ensures r.1 == ErrorArg ==> Retry(host, r.0, c, a, start, marks) == Retry(host, r.0, c, b, start, marks)
  {
    if r.1 == ErrorArg {
      var last := CommandWords(a, marks);
      SliceSame(a, b, start + 1, last);
      ExecuteSame(host, r.0, c, a[start + 1..last], a, b, marks);
    }
  }

  lemma EnterRespelled(host: Host, w: World, c: Cmd, rest: Walked, a: seq<string>, b: seq<string>, start: nat,
      marks: seq<nat>)
    requires GoodMarks(a, marks) && |a| == |b| && start + 1 < CommandWords(a, marks) && c.children != []
    requires start + 1 + |rest.path| <= CommandWords(a, marks)
    requires Dispatch(host, w, c.children, a, start + 1, marks) == Dispatch(host, w, c.children, b, start + 1, marks)
    requires Outcome(host, w, Dispatch(host, w, c.children, a, start + 1, marks), rest, a, start + 1, marks)
    requires Target(rest) < 0 ==>
               a[start + 1..] == b[start + 1..] && (c.callback != NoCallback || rest.ending != Mismatch)
    ensures Enter(host, w, c, a, start, marks) == Enter(host, w, c, b, start, marks)
  {
    hide Execute;
    RetryRespelled(host, w, Dispatch(host, w, c.children, a, start + 1, marks), c, rest, a, b, start, marks);
  }

  /**
   Every longer spelling of an unambiguous abbreviation, in any case, names the same command. It is also taken by the
   same command, unless, in a submode, it spells out a command of config mode and the abbreviation did not.
   */
  lemma LongerSpelling(ns: seq<Cmd>, i: nat, short: string, long: string, mode: nat, privilege: int)
    requires WellNamed(ns) && Names(ns, i, short, mode, privilege)
    requires FoldPrefix(short, long) && FoldPrefix(long, ns[i].name)
    ensures Names(ns, i, long, mode, privilege)
    ensures Choose(ns, short, mode, privilege) == Chosen(i, mode) ==>
              (Choose(ns, long, mode, privilege) == Chosen(i, mode) <==>
               ns[i].mode == mode || forall j: nat :: !NamesConfig(ns, j, long, mode, privilege))
  {
    if |long| < |ns[i].name| {
      forall j | 0 <= j < |ns| && j != i && Visible(ns[j], mode, privilege) ensures !FoldPrefix(long, ns[j].name) {
        if FoldPrefix(long, ns[j].name) {
          assert FoldPrefix(short, ns[j].name);
        }
      }
    }
    if ns[i].mode == mode {
      ChooseCurrent(ns, i, long, mode, privilege);
    } else if Choose(ns, short, mode, privilege) == Chosen(i, mode) {
      NoneCurrent(ns, i, short, long, mode, privilege);
      if forall j: nat :: !NamesConfig(ns, j, long, mode, privilege) {
        ChooseAny(ns, i, long, mode, privilege);
      } else {
        var j: nat :| NamesConfig(ns, j, long, mode, privilege);
        ChooseConfig(ns, j, long, mode, privilege);
      }
    }
  }

  lemma NoneCurrent(ns: seq<Cmd>, i: nat, short: string, long: string, mode: nat, privilege: int)
    requires WellNamed(ns) && Names(ns, i, short, mode, privilege) && ns[i].mode == MODE_ANY
    requires FoldPrefix(short, long) && FoldPrefix(long, ns[i].name)
    requires Choose(ns, short, mode, privilege) == Chosen(i, mode)
    ensures forall k: nat :: !NamesCurrent(ns, k, long, mode, privilege)
  {
    forall k: nat | NamesCurrent(ns, k, long, mode, privilege) ensures false {
      assert FoldPrefix(short, ns[k].name) && Ambiguous(ns, i, short, mode, privilege);
      assert |short| == |long| == |ns[i].name| && Ambiguous(ns, k, long, mode, privilege);
      assert NamesCurrent(ns, k, short, mode, privilege);
      ChooseCurrent(ns, k, short, mode, privilege);
    }
  }
}

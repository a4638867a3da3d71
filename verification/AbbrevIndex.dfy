/** The cached index decides exactly what a search for ambiguity among the visible siblings would decide. */
module AbbrevIndex {
  import opened Text
  import opened CommandTree

  /** The two comparisons cli_find_command makes against an index entry. */
  predicate CacheMatch(name: string, word: string, uniqueLen: nat) {
    StrnCaseEq(name, word, uniqueLen) && StrnCaseEq(name, word, |word|)
  }

  /** Plain ambiguity search: `word` abbreviates sibling i and is its whole name or abbreviates no other. */
  ghost predicate Names(ns: seq<Cmd>, i: nat, word: string, mode: nat, privilege: int) {
    && i < |ns| && Visible(ns[i], mode, privilege)
    && word != "" && FoldPrefix(word, ns[i].name)
    && (|word| == |ns[i].name| || !Ambiguous(ns, i, word, mode, privilege))
  }

  ghost predicate Ambiguous(ns: seq<Cmd>, i: nat, word: string, mode: nat, privilege: int) {
    exists j :: 0 <= j < |ns| && j != i && Visible(ns[j], mode, privilege) && FoldPrefix(word, ns[j].name)
  }

  /** Commands are registered under non-empty lower-case names, distinct among the siblings of one mode. */
  ghost predicate WellNamed(ns: seq<Cmd>) {
    && (forall i :: 0 <= i < |ns| ==> ns[i].name != "" && IsLower(ns[i].name) && WellNamed(ns[i].children))
    && (forall i, j :: 0 <= i < j < |ns| && ns[i].mode == ns[j].mode ==> ns[i].name != ns[j].name)
  }

  ghost predicate Clashes(ns: seq<Cmd>, i: nat, n: nat, mode: nat, privilege: int)
    requires i < |ns|
  {
    exists j :: 0 <= j < |ns| && j != i && Visible(ns[j], mode, privilege) && Shared(ns[i].name, ns[j].name) >= n
  }

  ghost predicate FoldClashes(ns: seq<Cmd>, i: nat, n: nat, mode: nat, privilege: int)
    requires i < |ns|
  {
    exists j :: 0 <= j < |ns| && j != i && Visible(ns[j], mode, privilege) && FoldShared(ns[i].name, ns[j].name) >= n
  }

  /** Whenever another visible name shares the first n letters ignoring case, one shares them exactly. */
  ghost predicate CaseAgrees(ns: seq<Cmd>, i: nat, mode: nat, privilege: int)
    requires i < |ns|
  {
    forall n :: 1 <= n < |ns[i].name| && FoldClashes(ns, i, n, mode, privilege) ==> Clashes(ns, i, n, mode, privilege)
  }

  lemma {:induction false} SharedBelowMeaning(ns: seq<Cmd>, i: nat, k: nat, n: nat, mode: nat, privilege: int)
    requires i < |ns| && k <= |ns| && n >= 1
    ensures SharedBelow(ns, i, k, mode, privilege) > n <==>
            exists j :: 0 <= j < k && j != i && Visible(ns[j], mode, privilege) && Shared(ns[i].name, ns[j].name) >= n
  {
    if k > 0 {
      SharedBelowMeaning(ns, i, k - 1, n, mode, privilege);
    }
  }

  lemma FoldSharedAtLeast(a: string, b: string, w: string)
    requires FoldPrefix(w, a)
    ensures FoldPrefix(w, b) <==> FoldShared(a, b) >= |w|
  {
    var n := FoldShared(a, b);
    assert forall k :: 0 <= k < n ==> Lower(a[k]) == Lower(b[k]) by {
      assert forall k :: 0 <= k < n ==> a[..n][k] == a[k] && b[..n][k] == b[k];
    }
  }

  lemma SharedIsFoldShared(a: string, b: string)
    ensures Shared(a, b) <= FoldShared(a, b)
    ensures IsLower(a) && IsLower(b) ==> Shared(a, b) == FoldShared(a, b)
  {
    var n, m := Shared(a, b), FoldShared(a, b);
    assert forall k :: 0 <= k < n ==> a[..n][k] == a[k] && b[..n][k] == b[k];
    assert forall k :: 0 <= k < m ==> a[..m][k] == a[k] && b[..m][k] == b[k];
  }

  lemma AmbiguousIsClash(ns: seq<Cmd>, i: nat, word: string, mode: nat, privilege: int)
    requires i < |ns| && (forall j :: 0 <= j < |ns| ==> IsLower(ns[j].name)) && FoldPrefix(word, ns[i].name)
    ensures Ambiguous(ns, i, word, mode, privilege) <==> Clashes(ns, i, |word|, mode, privilege)
  {
    forall j | 0 <= j < |ns|
      ensures FoldPrefix(word, ns[j].name) <==> Shared(ns[i].name, ns[j].name) >= |word|
    {
      FoldSharedAtLeast(ns[i].name, ns[j].name, word);
      SharedIsFoldShared(ns[i].name, ns[j].name);
    }
  }

  // a cached entry accepts a word exactly when it is long enough or complete
  lemma CacheMatchMeaning(name: string, word: string, uniqueLen: nat)
    requires uniqueLen >= 1 && name != ""
    ensures CacheMatch(name, word, uniqueLen) <==>
            word != "" && FoldPrefix(word, name) && (|word| >= uniqueLen || |word| == |name|)
  {
  }

  lemma NamesMeaning(ns: seq<Cmd>, i: nat, w: string, mode: nat, privilege: int)
    requires i < |ns| && Visible(ns[i], mode, privilege)
    ensures Names(ns, i, w, mode, privilege) <==>
            && w != "" && FoldPrefix(w, ns[i].name)
            && (|w| == |ns[i].name| || !FoldClashes(ns, i, |w|, mode, privilege))
  {
    if FoldPrefix(w, ns[i].name) {
      forall j | 0 <= j < |ns| { FoldSharedAtLeast(ns[i].name, ns[j].name, w); }
    }
  }

  lemma EntryMeaning(ns: seq<Cmd>, i: nat, w: string, mode: nat, privilege: int)
    requires i < |ns| && Visible(ns[i], mode, privilege) && ns[i].name != ""
    ensures CacheMatch(ns[i].name, w, Shortest(ns, i, mode, privilege)) <==>
            && w != "" && FoldPrefix(w, ns[i].name)
            && (|w| == |ns[i].name| || !Clashes(ns, i, |w|, mode, privilege))
  {
    hide SharedBelow, CacheMatch;
    CacheMatchMeaning(ns[i].name, w, Shortest(ns, i, mode, privilege));
    if w != "" {
      SharedBelowMeaning(ns, i, |ns|, |w|, mode, privilege);
    }
  }

  lemma ClashesFold(ns: seq<Cmd>, i: nat, n: nat, mode: nat, privilege: int)
    requires i < |ns|
    ensures Clashes(ns, i, n, mode, privilege) ==> FoldClashes(ns, i, n, mode, privilege)
  {
    forall j | 0 <= j < |ns| { SharedIsFoldShared(ns[i].name, ns[j].name); }
  }

  /**
   For a visible command, the index accepts the same words as a search for ambiguity, whatever the word,
   if and only if the case of the registered names hides no clash.
   */
  lemma IndexIsAmbiguitySearch(ns: seq<Cmd>, i: nat, mode: nat, privilege: int)
    requires i < |ns| && Visible(ns[i], mode, privilege) && ns[i].name != ""
    ensures (forall w ::
              CacheMatch(ns[i].name, w, Shortest(ns, i, mode, privilege)) <==> Names(ns, i, w, mode, privilege))
       <==> CaseAgrees(ns, i, mode, privilege)
  {
    hide CacheMatch, Shortest, Names, Clashes, FoldClashes;
    var name, len := ns[i].name, Shortest(ns, i, mode, privilege);
    if CaseAgrees(ns, i, mode, privilege) {
      forall w ensures CacheMatch(name, w, len) <==> Names(ns, i, w, mode, privilege) {
        EntryMeaning(ns, i, w, mode, privilege);
        NamesMeaning(ns, i, w, mode, privilege);
        ClashesFold(ns, i, |w|, mode, privilege);
      }
    } else {
      var n :| 1 <= n < |name| && FoldClashes(ns, i, n, mode, privilege) && !Clashes(ns, i, n, mode, privilege);
      EntryMeaning(ns, i, name[..n], mode, privilege);
      NamesMeaning(ns, i, name[..n], mode, privilege);
      assert FoldPrefix(name[..n], name);
    }
  }

  lemma LowerCaseAgrees(ns: seq<Cmd>, i: nat, mode: nat, privilege: int)
    requires i < |ns| && forall j :: 0 <= j < |ns| ==> IsLower(ns[j].name)
    ensures CaseAgrees(ns, i, mode, privilege)
  {
    forall j | 0 <= j < |ns| { SharedIsFoldShared(ns[i].name, ns[j].name); }
  }

  /** With lower-case names, lookup through a fresh entry of a visible command is the ambiguity search. */
  lemma MatchIsNames(ns: seq<Cmd>, i: nat, w: string, mode: nat, privilege: int)
    requires WellNamed(ns) && i < |ns| && Visible(ns[i], mode, privilege)
    ensures CacheMatch(ns[i].name, w, Shortest(ns, i, mode, privilege)) <==> Names(ns, i, w, mode, privilege)
  {
    LowerCaseAgrees(ns, i, mode, privilege);
    IndexIsAmbiguitySearch(ns, i, mode, privilege);
  }

  /** An entry of a command of another mode holds its full length, so only its whole name is accepted. */
  lemma HiddenMatchIsWholeName(ns: seq<Cmd>, i: nat, w: string, mode: nat, privilege: int)
    requires i < |ns| && !Visible(ns[i], mode, privilege)
    ensures CacheMatch(ns[i].name, w, Shortest(ns, i, mode, privilege)) <==> FoldEq(w, ns[i].name)
  {
  }

  /** No word names two visible commands, unless they carry one name for two modes. */
  lemma AtMostOneNamed(ns: seq<Cmd>, i: nat, j: nat, w: string, mode: nat, privilege: int)
    requires WellNamed(ns) && Names(ns, i, w, mode, privilege) && Names(ns, j, w, mode, privilege)
    ensures ns[i].name == ns[j].name
    ensures ns[i].mode == ns[j].mode ==> i == j
  {
    if i != j {
      assert |w| == |ns[i].name| == |ns[j].name|;
      var a, b := ns[i].name, ns[j].name;
      assert forall k :: 0 <= k < |w| ==> a[k] == Lower(a[k]) == Lower(b[k]) == b[k];
    }
  }

  // the same letter, of either case, or the same character
  predicate SameLetter(a: char, b: char) {
    || a == b
    || ('A' <= a <= 'Z' && b as int == a as int + 32)
    || ('A' <= b <= 'Z' && a as int == b as int + 32)
  }

  /** Case is ignored: a word names what the same letters in any case name. */
  lemma CaseIsIgnored(ns: seq<Cmd>, i: nat, a: string, b: string, mode: nat, privilege: int)
    requires |a| == |b| && forall k :: 0 <= k < |a| ==> SameLetter(a[k], b[k])
    ensures Names(ns, i, a, mode, privilege) <==> Names(ns, i, b, mode, privilege)
  {
    hide SameLetter, FoldPrefix;
    forall j | 0 <= j < |ns| ensures FoldPrefix(a, ns[j].name) <==> FoldPrefix(b, ns[j].name) {
      EitherCase(a, b, ns[j].name);
    }
  }

  lemma EitherCase(a: string, b: string, name: string)
    requires |a| == |b| && forall k :: 0 <= k < |a| ==> SameLetter(a[k], b[k])
    ensures FoldPrefix(a, name) <==> FoldPrefix(b, name)
  {
    assert forall k :: 0 <= k < |a| ==> Lower(a[k]) == Lower(b[k]);
  }

  /** A name that is a proper prefix of a sibling's, like port and ports, is still reached by its full spelling. */
  lemma WholeNameAlwaysReaches(ns: seq<Cmd>, i: nat, mode: nat, privilege: int)
    requires WellNamed(ns) && i < |ns| && Visible(ns[i], mode, privilege)
    ensures Names(ns, i, ns[i].name, mode, privilege)
    ensures forall j: nat :: Names(ns, j, ns[i].name, mode, privilege) ==> ns[j].name == ns[i].name
  {
    forall j: nat | Names(ns, j, ns[i].name, mode, privilege) ensures ns[j].name == ns[i].name {
      AtMostOneNamed(ns, i, j, ns[i].name, mode, privilege);
    }
  }

  /** Mixed case breaks the search: "s" is then accepted for two different commands. */
  lemma MixedCaseIsAmbiguous()
    ensures var ns := [Cmd("Show", 0, MODE_ANY, NoCallback, []), Cmd("set", 0, MODE_ANY, NoCallback, [])];
            && CacheMatch("Show", "s", Shortest(ns, 0, 0, 0)) && CacheMatch("set", "s", Shortest(ns, 1, 0, 0))
            && !Names(ns, 0, "s", 0, 0) && !CaseAgrees(ns, 0, 0, 0)
  {
    var ns := [Cmd("Show", 0, MODE_ANY, NoCallback, []), Cmd("set", 0, MODE_ANY, NoCallback, [])];
    assert Shared("Show", "set") == 0 && Shared("set", "Show") == 0;
    assert ns[0].name == "Show" && ns[1].name == "set";
    assert SharedBelow(ns, 0, 0, 0, 0) == 1 && SharedBelow(ns, 0, 1, 0, 0) == 1;
    assert SharedBelow(ns, 0, 2, 0, 0) == 1;
    assert SharedBelow(ns, 1, 0, 0, 0) == 1 && SharedBelow(ns, 1, 1, 0, 0) == 1;
    assert SharedBelow(ns, 1, 2, 0, 0) == 1;
    assert Visible(ns[1], 0, 0) && FoldPrefix("s", ns[1].name) && Ambiguous(ns, 0, "s", 0, 0);
    IndexIsAmbiguitySearch(ns, 0, 0, 0);
  }
}

/** Who is let in: how stored passwords are compared, and what an attempt leads to. */
module Logins {
  import opened Text
  import opened CommandTree
  import opened Interpreter
  import opened SessionSafety
  import opened DispatchLaws
  import opened Outcomes

  // s begins with the letters of `letters`, in any case
  predicate BeginsAnyCase(s: string, letters: string) {
    |letters| <= |s| && forall k :: 0 <= k < |letters| ==> s[k] == letters[k] || s[k] as int == letters[k] as int - 32
  }

  const BRACED: string := "{crypt}"

  // {crypt} in any case; the braces have none
  predicate Encrypted(stored: string) {
    BeginsAnyCase(stored, BRACED) && stored[0] == '{' && stored[6] == '}'
  }

  lemma EncryptedIsPrefix(stored: string)
    ensures Encrypted(stored) <==> FoldPrefix("{crypt}", stored)
  {
    if |stored| >= 7 {
      forall k | 0 <= k < 7 && k != 0 && k != 6
        ensures Lower(stored[k]) == BRACED[k] <==> stored[k] == BRACED[k] || stored[k] as int == BRACED[k] as int - 32
      {
      }
      assert forall k :: 0 <= k < 7 ==> Lower(BRACED[k]) == BRACED[k];
    }
  }

  /**
   Stored as {crypt} and a hash, a password matches what crypts to the hash; stored as $1$ and a hash, what crypts to
   all of that; stored in any other way it is plain and matches itself.
   */
  lemma PasswordForms(host: Host, stored: string, attempt: string)
    ensures Encrypted(stored) ==>
              (PassMatches(host, stored, attempt) <==> host.crypt(attempt, stored[7..]) == stored[7..])
    ensures "$1$" <= stored ==> (PassMatches(host, stored, attempt) <==> host.crypt(attempt, stored) == stored)
    ensures !Encrypted(stored) && !("$1$" <= stored) ==> (PassMatches(host, stored, attempt) <==> attempt == stored)
  {
    EncryptedIsPrefix(stored);
  }

  /** An attempt fits a name if the program says so, or if some user of that name has a password that it matches. */
  ghost predicate MayEnter(host: Host, name: string, attempt: string) {
    || (host.auth.Some? && host.auth.value(name, attempt))
    || exists i :: 0 <= i < |host.users| && host.users[i].0 == name && PassMatches(host, host.users[i].1, attempt)
  }

  /** A user is let in, unprivileged, if and only if the password fits the name; otherwise both are asked for again. */
  lemma LoginOutcome(host: Host, tree: seq<Cmd>, name: string, attempt: string)
    requires host.users != [] || host.auth.Some?
    ensures var w := Session(host, Start(host), tree, [Typed(name), Typed(attempt)]);
            && w.privilege == 0 && w.mode == MODE_EXEC
            && (name != "" ==>
                  if MayEnter(host, name, attempt)
                  then w.state == Normal && w.username == name && w.log == [LoggedIn(name, attempt)]
                  else w.state == Login && w.username == "" && w.log == [Said(AccessDenied)])
  {
    hide PassMatches, KnownUser, RunCommand, PrintAll, CallAll;
    var w0 := Start(host);
    var inputs := [Typed(name), Typed(attempt)];
    KnownUserMeaning(host, host.users, name, attempt);
    var (w1, _) := Submit(host, w0, tree, name);
    var (w2, _) := Submit(host, w1, tree, attempt);
    assert inputs[0] == Typed(name) && inputs[1..] == [Typed(attempt)] && inputs[1..][1..] == [];
    assert Session(host, w2, tree, []) == w2;
    assert Session(host, w1, tree, [Typed(attempt)]) == w2;
    assert Session(host, w0, tree, inputs) == w2;
  }

  /** The enable password: if it matches the session is privileged, in the same mode; if not, it goes on as it was. */
  lemma ElevationOutcome(host: Host, w: World, tree: seq<Cmd>, attempt: string)
    requires w.state == EnablePassword
    ensures var (w', over) := Submit(host, w, tree, attempt);
            var fits := (host.enablePassword.Some? && PassMatches(host, host.enablePassword.value, attempt))
                        || (host.enableCallback.Some? && host.enableCallback.value(attempt));
            && !over && w'.mode == w.mode && w'.username == w.username && w'.prior == w.prior
            && w'.filters == w.filters && w'.output == w.output
            && (fits ==> w'.state == Enabled && w'.privilege == 15
                         && w'.log == w.log + [Elevated(attempt), PrivilegeSet(PRIVILEGED)])
            && (!fits ==> w'.state == Normal && w'.privilege == w.privilege && w'.log == w.log + [Said(AccessDenied)])
  {
  }

  /** An answer goes to the callback that the request was made with, back in the state it was made in. */
  lemma AnswerOutcome(host: Host, w: World, tree: seq<Cmd>, line: string)
    requires w.state == Request
    ensures var (w', over) := Submit(host, w, tree, line);
            var r := host.answer(line, w.log);
            && (over <==> r.rc == Quitting) && Came(w.(state := w.prior, prior := Login), w', r.calls)
            && w'.username == w.username
  {
    hide PrintAll, CallAll, Came;
    var w1 := w.(state := w.prior, prior := Login);
    var r := host.answer(line, w1.log);
    var w2 := PrintAll(w1, r.texts);
    PrintOnly(w1, r.texts);
    CallsCome(w2, r.calls);
    AlsoCame(w1, w2, CallAll(w2, r.calls), r.calls);
  }

  lemma AlsoCame(w: World, w2: World, w': World, calls: seq<Api>)
    requires w2 == w.(filters := w2.filters, output := w2.output) && Came(w2, w', calls)
    ensures Came(w, w', calls)
  {
  }

  /**
   ^C gives up a request: whatever a callback asked for, the session is back in the state the request was made in, with
   nothing else changed. Outside a request it changes nothing.
   */
  lemma InterruptOutcome(host: Host, w: World, tree: seq<Cmd>, calls: seq<Api>)
    requires w.state != Request
    ensures var asking := CallAll(w, calls);
            var (w', over) := React(host, asking, tree, CtrlC);
            && !over && w'.state == w.state
            && w' == asking.(state := w'.state, prior := if AskUser in calls then Login else w.prior)
  {
    hide CallAll;
    CallsCome(w, calls);
  }

  /** An empty line is taken for nothing, neither a user name nor a command. */
  lemma EmptyLine(host: Host, w: World, tree: seq<Cmd>)
    requires w.state == Login || w.state == Normal || w.state == Enabled
    ensures Submit(host, w, tree, "") == (w, false)
  {
  }
}

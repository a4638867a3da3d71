/**
 The command tree and its abbreviation index.

 A `Cmd` is the immutable description of a registered command. A `Command` is the node libcli keeps:
 everything about it is fixed at registration except `uniqueLen`, the cached length of its shortest
 unambiguous abbreviation, which `BuildShortest` rewrites in place.
 */
module CommandTree {
  import opened Text

  const MODE_ANY: int := -1
  const MODE_EXEC: nat := 0
  const MODE_CONFIG: nat := 1
  const UNPRIVILEGED: int := 0
  const PRIVILEGED: int := 15

  datatype Callback =
    | NoCallback
    | Help | History | Quit | Exit | Enable | Disable | ConfigureTerminal
    | User(id: nat)

  datatype Cmd = Cmd(name: string, privilege: int, mode: int, callback: Callback, children: seq<Cmd>)

  /** A command that can be named: registered for this mode or any, and within the privilege. */
  predicate Visible(c: Cmd, mode: nat, privilege: int) {
    (c.mode == MODE_ANY || c.mode == mode) && c.privilege <= privilege
  }

  /** One more than the longest prefix that sibling i shares with a visible one among the first k. */
  function SharedBelow(ns: seq<Cmd>, i: nat, k: nat, mode: nat, privilege: int): (n: nat)
    requires i < |ns| && k <= |ns|
    ensures n >= 1
  {
    if k == 0 then 1
    else
      var rest := SharedBelow(ns, i, k - 1, mode, privilege);
      if k - 1 == i || !Visible(ns[k - 1], mode, privilege) then rest
      else
        var n := Shared(ns[i].name, ns[k - 1].name) + 1;
        if n > rest then n else rest
  }

  /** The index entry of sibling i in a given mode and privilege. */
  function Shortest(ns: seq<Cmd>, i: nat, mode: nat, privilege: int): nat
    requires i < |ns|
  {
    if Visible(ns[i], mode, privilege) then SharedBelow(ns, i, |ns|, mode, privilege) else |ns[i].name|
  }

  class Command {
    const name: string
    const privilege: int
    const mode: int
    const callback: Callback
    const children: seq<Command>
    ghost const shape: Cmd
    ghost const repr: set<Command>
    var uniqueLen: nat

    // cli_register_command for a node whose children are already registered under it
    constructor (name: string, privilege: int, mode: int, callback: Callback, children: seq<Command>)
      requires ValidForest(children)
      ensures Valid() && repr == {this} + Reprs(children)
      ensures shape == Cmd(name, privilege, mode, callback, Shapes(children))
    {
      this.name, this.privilege, this.mode, this.callback := name, privilege, mode, callback;
      this.children := children;
      shape := Cmd(name, privilege, mode, callback, Shapes(children));
      repr := {this} + Reprs(children);
      uniqueLen := 0;
    }

    ghost predicate Valid()
      decreases shape
    {
      && shape.name == name && shape.privilege == privilege && shape.mode == mode && shape.callback == callback
      && |shape.children| == |children|
      && (forall i :: 0 <= i < |children| ==> children[i].shape == shape.children[i] && children[i].Valid())
      && (forall i, j :: 0 <= i < j < |children| ==> children[i].repr !! children[j].repr)
      && this !in Reprs(children)
      && repr == {this} + Reprs(children)
    }
  }

  ghost function Reprs(ns: seq<Command>): set<Command> {
    set i, c | 0 <= i < |ns| && c in ns[i].repr :: c
  }

  ghost function Shapes(ns: seq<Command>): (shapes: seq<Cmd>)
    ensures |shapes| == |ns| && forall i :: 0 <= i < |ns| ==> shapes[i] == ns[i].shape
  {
    seq(|ns|, i requires 0 <= i < |ns| => ns[i].shape)
  }

  ghost predicate ValidForest(ns: seq<Command>) {
    && (forall i :: 0 <= i < |ns| ==> ns[i].Valid())
    && (forall i, j :: 0 <= i < j < |ns| ==> ns[i].repr !! ns[j].repr)
  }

  lemma ChildrenAreForest(c: Command)
    requires c.Valid()
    ensures ValidForest(c.children) && Shapes(c.children) == c.shape.children && Reprs(c.children) <= c.repr
    ensures c !in Reprs(c.children)
  {
  }

  /** Every index entry that lookup can reach is the one computed for this mode and privilege. */
  ghost predicate Fresh(ns: seq<Command>, mode: nat, privilege: int)
    requires ValidForest(ns)
    reads Reprs(ns)
    decreases Shapes(ns)
  {
    forall i :: 0 <= i < |ns| ==> FreshAt(ns, i, mode, privilege)
  }

  ghost predicate FreshAt(ns: seq<Command>, i: nat, mode: nat, privilege: int)
    requires ValidForest(ns) && i < |ns|
    reads ns[i].repr
    decreases Shapes(ns), 0
  {
    ChildrenAreForest(ns[i]);
    assert ns[i].shape in Shapes(ns);
    && ns[i].uniqueLen == Shortest(Shapes(ns), i, mode, privilege)
    && (Visible(ns[i].shape, mode, privilege) ==> Fresh(ns[i].children, mode, privilege))
  }

  ghost predicate FreshUpTo(ns: seq<Command>, n: nat, mode: nat, privilege: int)
    requires ValidForest(ns) && n <= |ns|
    reads Reprs(ns)
  {
    forall i :: 0 <= i < n ==> FreshAt(ns, i, mode, privilege)
  }

  /** The entries that are rewritten: these commands, and those below the visible ones. */
  ghost function Exposed(ns: seq<Command>, mode: nat, privilege: int): (cs: set<Command>)
    requires ValidForest(ns)
    ensures cs <= Reprs(ns)
    decreases Shapes(ns), 1
  {
    set i, c | 0 <= i < |ns| && c in ExposedAt(ns, i, mode, privilege) :: c
  }

  ghost function ExposedAt(ns: seq<Command>, i: nat, mode: nat, privilege: int): (cs: set<Command>)
    requires ValidForest(ns) && i < |ns|
    ensures cs <= ns[i].repr
    decreases Shapes(ns), 0
  {
    ChildrenAreForest(ns[i]);
    assert ns[i].shape in Shapes(ns);
    {ns[i]} + if Visible(ns[i].shape, mode, privilege) then Exposed(ns[i].children, mode, privilege) else {}
  }

  /** cli_build_shortest: recomputes the index below `commands`, leaving children of invisible ones alone. */
  method BuildShortest(commands: seq<Command>, mode: nat, privilege: int)
    requires ValidForest(commands)
    modifies Exposed(commands, mode, privilege)`uniqueLen
    ensures Fresh(commands, mode, privilege)
    ensures forall c :: c in Reprs(commands) - Exposed(commands, mode, privilege) ==> c.uniqueLen == old(c.uniqueLen)
    decreases Shapes(commands), 2
  {
    for n := 0 to |commands|
      invariant FreshUpTo(commands, n, mode, privilege)
    {
      assert ExposedAt(commands, n, mode, privilege) <= Exposed(commands, mode, privilege);
      IndexNext(commands, n, mode, privilege);
    }
  }

  // rewriting the entries below one command leaves those below its siblings as they were
  method IndexNext(commands: seq<Command>, n: nat, mode: nat, privilege: int)
    requires ValidForest(commands) && n < |commands| && FreshUpTo(commands, n, mode, privilege)
    modifies ExposedAt(commands, n, mode, privilege)`uniqueLen
    ensures FreshUpTo(commands, n + 1, mode, privilege)
    decreases Shapes(commands), 1
  {
    assert forall i :: 0 <= i < n ==> commands[i].repr !! commands[n].repr;
    IndexCommand(commands, n, mode, privilege);
  }

  // one turn of its outer loop
  method IndexCommand(commands: seq<Command>, n: nat, mode: nat, privilege: int)
    requires ValidForest(commands) && n < |commands|
    modifies ExposedAt(commands, n, mode, privilege)`uniqueLen
    ensures FreshAt(commands, n, mode, privilege)
    decreases Shapes(commands), 0
  {
    var c := commands[n];
    assert c.shape in Shapes(commands) by { assert Shapes(commands)[n] == c.shape; }
    ChildrenAreForest(c);
    c.uniqueLen := |c.name|;
    if (c.mode == MODE_ANY || c.mode == mode) && c.privilege <= privilege {
      c.uniqueLen := LongestClash(commands, n, mode, privilege);
      if |c.children| > 0 {
        BuildShortest(c.children, mode, privilege);
      }
    }
  }

  // the sibling loop of cli_build_shortest
  method LongestClash(commands: seq<Command>, n: nat, mode: nat, privilege: int) returns (len: nat)
    requires ValidForest(commands) && n < |commands|
    ensures len == SharedBelow(Shapes(commands), n, |commands|, mode, privilege)
  {
    ghost var ns := Shapes(commands);
    var c := commands[n];
    len := 1;
    for m := 0 to |commands|
      invariant len == SharedBelow(ns, n, m, mode, privilege)
    {
      var p := commands[m];
      assert p.shape == ns[m];
      if m != n && (p.mode == MODE_ANY || p.mode == mode) && p.privilege <= privilege {
        var shared := SharedLength(c.name, p.name);
        if shared + 1 > len {
          len := shared + 1;
        }
      }
    }
  }

  // the character loop of cli_build_shortest
  method SharedLength(a: string, b: string) returns (n: nat)
    ensures n == Shared(a, b)
  {
    n := 0;
    while n < |a| && n < |b| && a[n] == b[n]
      invariant n <= |a| && n <= |b| && a[..n] == b[..n]
    {
      n := n + 1;
    }
    SharedAtLeast(a, b, n);
    SharedAtLeast(a, b, n + 1);
  }
}

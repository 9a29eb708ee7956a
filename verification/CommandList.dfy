/** The doubly linked list of top-level commands: registering, freeing, unregistering by type, and
    the commands that buildmode adds and takes away again. */
module CommandList {
  import opened CStrings
  import opened CommandTypes
  import opened OptargMatch

  class Command {
    const command: string
    const commandType: CommandType
    const hash: Option<string>
    var next: Command?
    var previous: Command?

    constructor (command: string, commandType: CommandType, hash: Option<string>)
      ensures this.command == command && this.commandType == commandType && this.hash == hash
      ensures next == null && previous == null
    {
      this.command, this.commandType, this.hash := command, commandType, hash;
      next, previous := null, null;
    }
  }

  /** The siblings that are left when those of a type are removed. */
  function Kept(siblings: seq<Command>, removed: CommandType): seq<Command> {
    if siblings == [] then []
    else (if siblings[0].commandType == removed then [] else [siblings[0]]) + Kept(siblings[1..], removed)
  }

  ghost function Nth(siblings: seq<Command>, i: int): Command? {
    if 0 <= i < |siblings| then siblings[i] else null
  }

  class Cli {
    var commands: Command?
    ghost var siblings: seq<Command>

    ghost function At(i: int): Command?
      reads this`siblings
    {
      Nth(siblings, i)
    }

    /** `next` and `previous` are mutually inverse along `siblings`. */
    ghost predicate Linked()
      reads this`siblings, siblings
    {
      && (forall i, j :: 0 <= i < j < |siblings| ==> siblings[i] != siblings[j])
      && (forall i {:trigger siblings[i].next} :: 0 <= i < |siblings| ==> siblings[i].next == At(i + 1))
      && (forall i {:trigger siblings[i].previous} :: 0 <= i < |siblings| ==> siblings[i].previous == At(i - 1))
    }

    ghost predicate Valid()
      reads this, siblings
    {
      Linked() && commands == At(0)
    }

    constructor ()
      ensures Valid() && siblings == []
    {
      commands, siblings := null, [];
    }

    /** `cli_register_command_core` at the top level. */
    method Register(c: Command)
      requires Valid() && c !in siblings && c.next == null && c.previous == null
      modifies this, c, siblings
      ensures Valid() && siblings == old(siblings) + [c]
    {
      var p: Command? := null;
      if commands == null {
        commands := c;
      } else {
        p := commands;
      }
      ghost var i := 0;
      while p != null && p.next != null
        invariant p == At(i) && 0 <= i && (siblings != [] ==> i < |siblings|)
        decreases |siblings| - i
      {
        p := p.next;
        i := i + 1;
      }
      if p != null {
        p.next := c;
        c.previous := p;
      }
      siblings := siblings + [c];
    }

    /** `cli_free_command`. The head of the list may already have moved on to the next command. */
    method Free(c: Command, ghost i: nat)
      requires Linked() && i < |siblings| && siblings[i] == c
      requires commands == At(0) || (i == 0 && commands == At(1))
      modifies this, siblings
      ensures Valid() && siblings == old(siblings)[..i] + old(siblings)[i + 1..]
    {
      ghost var all := siblings;
      if c == commands {
        commands := c.next;
        if c.next != null {
          c.next.previous := null;
        }
      } else {
        if c.previous != null {
          c.previous.next := c.next;
        }
        if c.next != null {
          c.next.previous := c.previous;
        }
      }
      siblings := siblings[..i] + siblings[i + 1..];
      LinkedAround(all, i);
    }

    /** Around a command that was taken out the links are those of the shorter list. */
    lemma LinkedAround(all: seq<Command>, i: nat)
      requires i < |all| && siblings == all[..i] + all[i + 1..]
      requires forall j, k :: 0 <= j < k < |all| ==> all[j] != all[k]
      requires forall k {:trigger all[k].next} :: 0 <= k < |all| && k != i ==>
                 all[k].next == Nth(all, if k + 1 == i then i + 1 else k + 1)
      requires forall k {:trigger all[k].previous} :: 0 <= k < |all| && k != i ==>
                 all[k].previous == Nth(all, if k == i + 1 then i - 1 else k - 1)
      requires commands == Nth(all, if i == 0 then 1 else 0)
      ensures Valid()
    {
      assert forall k :: 0 <= k < |siblings| ==> siblings[k] == all[if k < i then k else k + 1];
    }

    /** Freeing inside `cli_unregister_tree`, which first moves the head on itself. */
    method FreeInTree(c: Command, ghost i: nat)
      requires Valid() && i < |siblings| && siblings[i] == c
      modifies this, siblings
      ensures Valid() && siblings == old(siblings)[..i] + old(siblings)[i + 1..]
    {
      if c == commands {
        commands := c.next;
      }
      Free(c, i);
    }

    /** One turn of `cli_unregister_tree`: `kept` has been passed and `rest` is to come. */
    method UnregisterOne(c: Command, removed: CommandType, ghost kept: seq<Command>, ghost rest: seq<Command>)
      returns (p: Command?)
      requires Valid() && rest != [] && c == rest[0] && siblings == kept + rest
      modifies this, siblings
      ensures Valid()
      ensures siblings == (if c.commandType == removed then kept else kept + [c]) + rest[1..]
      ensures forall k :: 0 <= k < |siblings| ==> siblings[k] in old(siblings)
      ensures p == At(|siblings| - |rest| + 1)
    {
      hide Valid, At;
      Walk(|kept|);
      AtSplit(kept, rest);
      Walk(|kept| + 1);
      p := c.next;
      if c.commandType == removed {
        FreeInTree(c, |kept|);
      }
      Walk(|kept|);
      Walk(|kept| + 1);
    }

    /** `cli_unregister_tree` from the head of the list. */
    method UnregisterTree(removed: CommandType)
      requires Valid()
      modifies this, siblings
      ensures Valid() && siblings == Kept(old(siblings), removed)
    {
      hide *;
      Walk(0);
      var c := commands;
      ghost var kept, rest := [], siblings;
      assert kept + rest == siblings && kept + Kept(rest, removed) == Kept(siblings, removed);
      while c != null
        invariant Valid() && forall k :: 0 <= k < |siblings| ==> siblings[k] in old(siblings)
        invariant siblings == kept + rest && c == At(|kept|)
        invariant kept + Kept(rest, removed) == Kept(old(siblings), removed)
        decreases |rest|
      {
        Walk(|kept|);
        KeptNext(kept, rest, removed);
        ghost var passed := if rest[0].commandType == removed then kept else kept + [rest[0]];
        c := UnregisterOne(c, removed, kept, rest);
        kept, rest := passed, rest[1..];
      }
      Walk(|kept|);
      KeptNothing(removed);
    }

    /** What a step along the list yields. */
    lemma Walk(i: nat)
      requires Valid()
      ensures commands == At(0)
      ensures if i < |siblings| then At(i) == siblings[i] && siblings[i].next == At(i + 1) else At(i) == null
    {
    }

    /** `cli_int_unregister_command_core`: free the first command of that name, type and hash. */
    method UnregisterCommand(command: string, commandType: CommandType, hash: Option<string>)
      requires Valid()
      modifies this, siblings
      ensures Valid()
      ensures siblings == WithoutFirst(old(siblings), command, commandType, hash)
    {
      var c := commands;
      ghost var i := 0;
      while c != null
        invariant 0 <= i <= |siblings| && c == At(i)
        invariant forall k :: 0 <= k < i ==> !Named(siblings[k], command, commandType, hash)
        decreases |siblings| - i
      {
        var p := c.next;
        if c.command == command && c.commandType == commandType {
          if c.hash == hash {
            FirstNamed(siblings, command, commandType, hash, i);
            Free(c, i);
            return;
          }
        }
        c := p;
        i := i + 1;
      }
      FirstNamed(siblings, command, commandType, hash, |siblings|);
    }

    method RegisterBuildmode(command: string)
      requires Valid()
      modifies this, siblings
      ensures Valid() && |siblings| == |old(siblings)| + 1 && siblings[..|old(siblings)|] == old(siblings)
      ensures var c := siblings[|old(siblings)|];
              fresh(c) && c.command == command && c.commandType == BuildmodeType
    {
      var c := new Command(command, BuildmodeType, None);
      Register(c);
    }

    /** Register these names one by one at the end of the list. */
    method RegisterAll(names: seq<string>)
      requires Valid()
      modifies this, siblings
      ensures Valid() && Extends(old(siblings), siblings, names)
      ensures forall k :: |old(siblings)| <= k < |siblings| ==> fresh(siblings[k])
    {
      hide Valid;
      ghost var before := siblings;
      var i := 0;
      while i < |names|
        invariant 0 <= i <= |names| && Valid() && Extends(before, siblings, names[..i])
        invariant forall k :: |before| <= k < |siblings| ==> fresh(siblings[k])
      {
        RegisterBuildmode(names[i]);
        i := i + 1;
      }
      assert names[..i] == names;
    }

    /** One optarg of the command that is being built. */
    method OfferOne(env: Env, o: Optarg, ghost before: seq<Command>, ghost names: seq<string>)
      requires Valid() && before <= siblings && Extends(before, siblings, names)
      modifies this, siblings
      ensures Valid() && old(siblings) <= siblings
      ensures Extends(before, siblings, names + if IsOffered(env, o) then [o.name] else [])
      ensures forall k :: |old(siblings)| <= k < |siblings| ==> fresh(siblings[k])
    {
      hide Valid, Extends, IsOffered;
      ghost var middle := siblings;
      if IsOffered(env, o) {
        RegisterBuildmode(o.name);
        ExtendsByOne(before, middle, siblings, names, o.name);
      } else {
        assert names + [] == names;
      }
    }

    /** `cli_int_enter_buildmode` as far as the command list goes. */
    method EnterBuildmode(env: Env, optargs: seq<Optarg>) returns (ok: bool)
      requires Valid() && forall c <- siblings :: c.commandType != BuildmodeType
      modifies this, siblings
      ensures Valid()
      ensures ok <==> forall o <- FromEntry(optargs) :: o.name !in RESERVED
      ensures ok ==>
                Extends(old(siblings), siblings, Offered(env, FromEntry(optargs)) + ["cancel", "execute", "show", "unset"])
      ensures !ok ==> siblings == old(siblings)
      ensures forall k :: |old(siblings)| <= k < |siblings| ==> fresh(siblings[k])
    {
      hide Valid, Extends, IsOffered;
      ghost var before := siblings;
      var entry := FromEntry(optargs);
      var j := 0;
      ExtendsNothing(before);
      while j < |entry|
        invariant 0 <= j <= |entry| && Valid()
        invariant before <= siblings && Extends(before, siblings, Offered(env, entry[..j]))
        invariant forall k :: |before| <= k < |siblings| ==> fresh(siblings[k])
        invariant forall o <- entry[..j] :: o.name !in RESERVED
      {
        assert entry[j] in entry && entry[..j + 1][..j] == entry[..j];
        if entry[j].name in RESERVED {
          ExtendsMeans(before, siblings, Offered(env, entry[..j]));
          FreeBuildmode(before);
          return false;
        }
        OfferOne(env, entry[j], before, Offered(env, entry[..j]));
        j := j + 1;
      }
      assert entry[..j] == entry;
      ghost var middle := siblings;
      ExtendsMeans(before, middle, Offered(env, entry));
      RegisterAll(RESERVED);
      assert forall k :: |before| <= k < |middle| ==> siblings[k] == middle[k] by {
        ExtendsMeans(middle, siblings, RESERVED);
      }
      ExtendsAgain(before, middle, siblings, Offered(env, entry), RESERVED);
      return true;
    }

    /** `cli_int_free_buildmode`: whatever buildmode added to the list `before`, in whatever order,
        is gone, and the rest is as it was. */
    method FreeBuildmode(ghost before: seq<Command>)
      requires Valid() && before <= siblings
      requires forall c <- before :: c.commandType != BuildmodeType
      requires forall k :: |before| <= k < |siblings| ==> siblings[k].commandType == BuildmodeType
      modifies this, siblings
      ensures Valid() && siblings == before
    {
      hide Valid;
      KeptOfAppend(before, siblings[|before|..], BuildmodeType);
      assert before + siblings[|before|..] == siblings;
      UnregisterTree(BuildmodeType);
    }
  }

  /** Entering buildmode and leaving it again, by whatever path, restores the list of commands. */
  method EnterAndLeave(cli: Cli, env: Env, optargs: seq<Optarg>) returns (ok: bool)
    requires cli.Valid() && forall c <- cli.siblings :: c.commandType != BuildmodeType
    modifies cli, cli.siblings
    ensures cli.Valid() && cli.siblings == old(cli.siblings)
  {
    ghost var before := cli.siblings;
    ok := cli.EnterBuildmode(env, optargs);
    if ok {
      assert forall k :: 0 <= k < |before| ==> cli.siblings[k] == before[k];
      cli.FreeBuildmode(before);
    }
  }

  /** Buildmode's own commands, in the order in which they are registered. */
  const RESERVED: seq<string> := ["cancel", "execute", "show", "unset"]

  /** The optargs from the first one that starts buildmode on. */
  function FromEntry(optargs: seq<Optarg>): seq<Optarg> {
    if optargs == [] || AllowBuildmode in optargs[0].flags then optargs else FromEntry(optargs[1..])
  }

  /** Buildmode offers a command for an optarg of the mode or the transient mode; unlike everywhere
      else, `MODE_ANY` does not help. */
  predicate IsOffered(env: Env, o: Optarg) {
    && AllowBuildmode !in o.flags && TransientMode !in o.flags
    && (o.mode == env.mode || o.mode == env.transientMode)
  }

  function Offered(env: Env, optargs: seq<Optarg>): seq<string> {
    if optargs == [] then []
    else
      var last := optargs[|optargs| - 1];
      Offered(env, optargs[..|optargs| - 1]) + if IsOffered(env, last) then [last.name] else []
  }

  /** `after` is `before` with buildmode commands of these names at the end. */
  ghost predicate Extends(before: seq<Command>, after: seq<Command>, names: seq<string>) {
    && |after| == |before| + |names|
    && before <= after
    && forall k :: |before| <= k < |after| ==>
         after[k].commandType == BuildmodeType && after[k].command == names[k - |before|]
  }

  lemma ExtendsNothing(before: seq<Command>)
    ensures Extends(before, before, [])
  {
  }

  lemma ExtendsMeans(before: seq<Command>, after: seq<Command>, names: seq<string>)
    requires Extends(before, after, names)
    ensures |before| <= |after| && before <= after
    ensures forall k :: |before| <= k < |after| ==> after[k].commandType == BuildmodeType
  {
  }

  lemma ExtendsByOne(before: seq<Command>, middle: seq<Command>, after: seq<Command>, names: seq<string>, name: string)
    requires Extends(before, middle, names)
    requires |after| == |middle| + 1 && after[..|middle|] == middle
    requires after[|middle|].commandType == BuildmodeType && after[|middle|].command == name
    ensures Extends(before, after, names + [name])
  {
    assert forall k :: 0 <= k < |middle| ==> after[k] == middle[k];
  }

  lemma ExtendsAgain(a: seq<Command>, b: seq<Command>, c: seq<Command>, xs: seq<string>, ys: seq<string>)
    requires Extends(a, b, xs) && Extends(b, c, ys)
    ensures Extends(a, c, xs + ys)
  {
    assert forall k :: |a| <= k < |b| ==> c[k] == b[k];
  }

  predicate Named(c: Command, command: string, commandType: CommandType, hash: Option<string>) {
    c.command == command && c.commandType == commandType && c.hash == hash
  }

  function WithoutFirst(siblings: seq<Command>, command: string, commandType: CommandType,
                        hash: Option<string>): seq<Command>
  {
    if siblings == [] then []
    else if Named(siblings[0], command, commandType, hash) then siblings[1..]
    else [siblings[0]] + WithoutFirst(siblings[1..], command, commandType, hash)
  }

  /** The first command of the name, the type and the hash is taken out, and no other. */
  lemma {:induction false} FirstNamed(siblings: seq<Command>, command: string, commandType: CommandType,
                                      hash: Option<string>, i: nat)
    requires i <= |siblings|
    requires forall k :: 0 <= k < i ==>
               siblings[k].command != command || siblings[k].commandType != commandType || siblings[k].hash != hash
    requires i < |siblings| ==>
               siblings[i].command == command && siblings[i].commandType == commandType && siblings[i].hash == hash
    ensures WithoutFirst(siblings, command, commandType, hash)
         == if i < |siblings| then siblings[..i] + siblings[i + 1..] else siblings
  {
    if 0 < i {
      assert !Named(siblings[0], command, commandType, hash);
      FirstNamed(siblings[1..], command, commandType, hash, i - 1);
      if i < |siblings| {
        TakenOutLater(siblings, i);
      }
    }
  }

  lemma TakenOutLater(s: seq<Command>, i: nat)
    requires 0 < i < |s|
    ensures [s[0]] + (s[1..][..i - 1] + s[1..][i..]) == s[..i] + s[i + 1..]
  {
  }

  lemma AtSplit(a: seq<Command>, b: seq<Command>)
    requires b != []
    ensures (a + b)[|a|] == b[0]
    ensures (a + b)[..|a|] + (a + b)[|a| + 1..] == a + b[1..]
    ensures a + b == (a + [b[0]]) + b[1..]
    ensures |b| > 1 ==> (a + b)[|a| + 1] == (a + b[1..])[|a|]
  {
  }

  lemma KeptNext(kept: seq<Command>, rest: seq<Command>, removed: CommandType)
    ensures rest != [] ==>
              kept + Kept(rest, removed)
              == (if rest[0].commandType == removed then kept else kept + [rest[0]]) + Kept(rest[1..], removed)
  {
  }

  lemma KeptNothing(removed: CommandType)
    ensures Kept([], removed) == []
  {
  }

  /** Unregistering by type is an order-preserving filter: what was added in one type and then
      unregistered by that type leaves the list as it was. */
  lemma {:induction false} KeptOfAppend(siblings: seq<Command>, added: seq<Command>, removed: CommandType)
    requires forall c <- siblings :: c.commandType != removed
    requires forall c <- added :: c.commandType == removed
    ensures Kept(siblings + added, removed) == siblings
  {
    if siblings != [] {
      assert siblings[0] in siblings && forall c <- siblings[1..] :: c in siblings;
      assert (siblings + added)[1..] == siblings[1..] + added;
      KeptOfAppend(siblings[1..], added, removed);
    } else if added != [] {
      assert siblings + added == added && added[0] in added && forall c <- added[1..] :: c in added;
      KeptOfAppend([], added[1..], removed);
      assert [] + added[1..] == added[1..];
    }
  }

  /** Unregistering by type looks at each command alone: it is dropped when it is of the type. */
  lemma {:induction false} KeptIsFilter(a: seq<Command>, b: seq<Command>, c: Command, removed: CommandType)
    ensures Kept(a + b, removed) == Kept(a, removed) + Kept(b, removed)
    ensures Kept([c], removed) == if c.commandType == removed then [] else [c]
  {
    if a == [] {
      assert a + b == b;
    } else {
      assert (a + b)[1..] == a[1..] + b;
      KeptIsFilter(a[1..], b, c, removed);
    }
    assert [c][1..] == [];
  }

  /** Buildmode starts from the first optarg that allows it. */
  lemma {:induction false} FromEntryIsFirst(optargs: seq<Optarg>) returns (k: nat)
    ensures k <= |optargs| && FromEntry(optargs) == optargs[k..]
    ensures forall i :: 0 <= i < k ==> AllowBuildmode !in optargs[i].flags
    ensures k < |optargs| ==> AllowBuildmode in optargs[k].flags
  {
    if optargs == [] || AllowBuildmode in optargs[0].flags {
      return 0;
    }
    k := FromEntryIsFirst(optargs[1..]);
    assert optargs[1..][k..] == optargs[k + 1..];
    assert forall i :: 1 <= i < |optargs| ==> optargs[i] == optargs[1..][i - 1];
    k := k + 1;
  }

  /** The optargs that buildmode offers a command for, in order: those of the mode or the transient
      mode that neither start buildmode nor change the transient mode. */
  lemma {:induction false} OfferedAre(env: Env, optargs: seq<Optarg>) returns (chosen: seq<nat>)
    ensures |Offered(env, optargs)| == |chosen|
    ensures forall k :: 0 <= k < |chosen| ==> chosen[k] < |optargs| && Offered(env, optargs)[k] == optargs[chosen[k]].name
    ensures forall j, k :: 0 <= j < k < |chosen| ==> chosen[j] < chosen[k]
    ensures forall i :: 0 <= i < |optargs| ==>
              (i in chosen <==>
                 && (optargs[i].mode == env.mode || optargs[i].mode == env.transientMode)
                 && AllowBuildmode !in optargs[i].flags && TransientMode !in optargs[i].flags)
  {
    if optargs == [] {
      return [];
    }
    var n := |optargs| - 1;
    var before := OfferedAre(env, optargs[..n]);
    chosen := before + if IsOffered(env, optargs[n]) then [n] else [];
    assert forall k :: 0 <= k < |before| ==> before[k] in before && before[k] < n;
    assert forall i :: 0 <= i < n ==> optargs[..n][i] == optargs[i];
  }
}

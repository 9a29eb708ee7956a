/** Compiling a schema tree into commands: the registration routines and the depth-first driver
    `register_commands_schema`. */
module Generator {
  import opened CStrings
  import opened Modes
  import opened Schema
  import opened CommandForest

  /** The module being loaded: its schema, its name, the command name of its root and the mode that
      stands for each node. */
  datatype Context = Context(root: Node, hash: string, rootName: string, modeOf: Path -> int)

  function CmdName(ctx: Context, p: Path): string
    requires IsNode(ctx.root, p)
  {
    if p == [] then ctx.rootName else NodeAt(ctx.root, p).name
  }

  /** A container with the name of its parent gets no command. */
  predicate IsTwin(ctx: Context, p: Path)
    requires IsNode(ctx.root, p)
  {
    && p != [] && NodeAt(ctx.root, p).kind == Container
    && (ParentIsNode(ctx.root, p); NodeAt(ctx.root, Parent(p)).name == NodeAt(ctx.root, p).name)
  }

  predicate IsRegistered(ctx: Context, p: Path)
    requires IsNode(ctx.root, p)
  {
    NodeAt(ctx.root, p).config && !IsTwin(ctx, p)
  }

  /** The node whose command `find_parent_command_core` looks for. */
  function Target(ctx: Context, p: Path): (t: Option<Path>)
    requires IsNode(ctx.root, p)
    ensures t.Some? ==> IsNode(ctx.root, t.value) && |t.value| < |p| && t.value == p[..|t.value|]
  {
    if |p| < 2 then None
    else
      ParentIsNode(ctx.root, p);
      ParentIsNode(ctx.root, Parent(p));
      if NodeAt(ctx.root, Parent(p)).kind != Container then None
      else if NodeAt(ctx.root, Parent(p)).name == NodeAt(ctx.root, Parent(Parent(p))).name then
        Some(Parent(Parent(p)))
      else Some(Parent(p))
  }

  /** `y_get_curr_mode` */
  function CurrMode(ctx: Context, p: Path): int {
    if p == [] then MODE_CONFIG else ctx.modeOf(Parent(p))
  }

  /** `y_get_next_mode` */
  function NextMode(ctx: Context, p: Path): int {
    ctx.modeOf(p)
  }

  function FindParent(ctx: Context, f: seq<Cmd>, p: Path): Option<Loc>
    requires IsNode(ctx.root, p)
  {
    var t := Target(ctx, p);
    if t.None? then None else Search(f, 0, t.value, CmdName(ctx, t.value), ctx.hash)
  }

  // ----- Where commands are put

  /** The nodes of the commands that the command of `p` stands below, and its own. */
  function Chain(ctx: Context, p: Path): seq<Option<Path>>
    requires IsNode(ctx.root, p)
    decreases |p|
  {
    var t := Target(ctx, p);
    (if t.Some? && IsRegistered(ctx, t.value) then Chain(ctx, t.value) else []) + [Some(p)]
  }

  function PlacedMode(ctx: Context, p: Path): int
    requires IsNode(ctx.root, p)
    decreases |p|
  {
    var t := Target(ctx, p);
    if t.Some? && IsRegistered(ctx, t.value) then PlacedMode(ctx, t.value) else CurrMode(ctx, p)
  }

  /** The command at `l` is the one that node `p` should have. */
  ghost predicate Placed(ctx: Context, f: seq<Cmd>, l: Loc, p: Path)
    requires IsNode(ctx.root, p)
  {
    && IsHit(f, l, p, CmdName(ctx, p), ctx.hash)
    && Models(f, l) == Chain(ctx, p)
    && CmdAt(f, l).mode == PlacedMode(ctx, p)
  }

  /** A position of a command of the module. */
  ghost predicate Ours(ctx: Context, f: seq<Cmd>, l: Loc) {
    IsLoc(f, l) && CmdAt(f, l).hash == Some(ctx.hash)
  }

  /** Every command of the module is the right command of a processed node. */
  ghost predicate OnlyPlaced(ctx: Context, f: seq<Cmd>, done: seq<Path>) {
    forall l :: Ours(ctx, f, l) ==>
      var m := CmdAt(f, l).model;
      m.Some? && m.value in done && IsNode(ctx.root, m.value) && IsRegistered(ctx, m.value) && Placed(ctx, f, l, m.value)
  }

  /** Every processed node that is registered has its command. */
  ghost predicate AllPlaced(ctx: Context, f: seq<Cmd>, done: seq<Path>) {
    forall p <- done :: IsNode(ctx.root, p) && IsRegistered(ctx, p) ==> exists l :: IsLoc(f, l) && Placed(ctx, f, l, p)
  }

  /** No node has two commands. */
  ghost predicate OncePlaced(ctx: Context, f: seq<Cmd>) {
    forall l, m | Ours(ctx, f, l) && Ours(ctx, f, m) :: CmdAt(f, l).model == CmdAt(f, m).model ==> l == m
  }

  /** The commands of the module in `f` are exactly those of the nodes in `done`, once each. */
  ghost predicate Compiled(ctx: Context, f: seq<Cmd>, done: seq<Path>) {
    OnlyPlaced(ctx, f, done) && AllPlaced(ctx, f, done) && OncePlaced(ctx, f)
  }

  /** The parent that is found is the command of the target, and it is found when there is one. */
  lemma ParentFound(ctx: Context, f: seq<Cmd>, done: seq<Path>, p: Path)
    requires IsNode(ctx.root, p) && Compiled(ctx, f, done)
    requires forall t :: Target(ctx, p) == Some(t) ==> t in done
    ensures var l := FindParent(ctx, f, p);
            var t := Target(ctx, p);
            && (l.Some? <==> t.Some? && IsRegistered(ctx, t.value))
            && (l.Some? ==> IsLoc(f, l.value) && Placed(ctx, f, l.value, t.value))
  {
    hide Models, Chain, PlacedMode, IsRegistered, Search;
    var t := Target(ctx, p);
    if t.Some? {
      SearchFinds(f, 0, t.value, CmdName(ctx, t.value), ctx.hash);
      var l := FindParent(ctx, f, p);
      if l.Some? {
        HashedAt(f, l.value, ctx.hash);
        assert Ours(ctx, f, l.value);
      }
    }
  }

  lemma {:induction false} HashedAt(f: seq<Cmd>, l: Loc, hash: string)
    requires IsLoc(f, l) && Hashed(f, l, hash)
    ensures CmdAt(f, l).hash == Some(hash)
    decreases |l|
  {
    if |l| > 1 {
      HashedAt(f[l[0]].kids, l[1..], hash);
    }
  }

  /** The command that is registered for a node. */
  function NewCmd(ctx: Context, p: Path): Cmd
    requires IsNode(ctx.root, p)
  {
    Cmd(Some(p), CmdName(ctx, p), Some(ctx.hash), PlacedMode(ctx, p), [])
  }

  lemma StaysPlaced(ctx: Context, f: seq<Cmd>, at: Loc, c: Cmd, l: Loc, p: Path)
    requires at == [] || IsLoc(f, at)
    requires IsNode(ctx.root, p) && IsLoc(f, l) && Placed(ctx, f, l, p)
    ensures IsLoc(AppendAt(f, at, c), l) && Placed(ctx, AppendAt(f, at, c), l, p)
  {
    hide Models, Chain, PlacedMode, IsRegistered, Hashed, CmdAt, AppendAt;
    AppendKeeps(f, at, c, l);
  }

  lemma NewIsPlaced(ctx: Context, f: seq<Cmd>, done: seq<Path>, p: Path)
    requires IsNode(ctx.root, p) && Compiled(ctx, f, done)
    requires forall t :: Target(ctx, p) == Some(t) ==> t in done
    ensures var at := FindParent(ctx, f, p).GetOr([]);
            && (at == [] || IsLoc(f, at))
            && IsLoc(AppendAt(f, at, NewCmd(ctx, p)), NewLoc(f, at))
            && Placed(ctx, AppendAt(f, at, NewCmd(ctx, p)), NewLoc(f, at), p)
  {
    hide FindParent, CmdAt, AppendAt, NewLoc, Models, Hashed, IsRegistered, Compiled;
    ParentFound(ctx, f, done, p);
    AppendPlaces(f, FindParent(ctx, f, p).GetOr([]), NewCmd(ctx, p));
  }

  /** Registering a node keeps the command tree compiled. */
  lemma CompiledGrows(ctx: Context, f: seq<Cmd>, done: seq<Path>, p: Path)
    requires IsNode(ctx.root, p) && IsRegistered(ctx, p) && p !in done && Compiled(ctx, f, done)
    requires forall t :: Target(ctx, p) == Some(t) ==> t in done
    ensures var at := FindParent(ctx, f, p).GetOr([]);
            && (at == [] || IsLoc(f, at))
            && Compiled(ctx, AppendAt(f, at, NewCmd(ctx, p)), done + [p])
  {
    hide FindParent, CmdAt, AppendAt, NewLoc, Models, Hashed, IsRegistered, Placed, CmdName, PlacedMode;
    NewIsPlaced(ctx, f, done, p);
    var at := FindParent(ctx, f, p).GetOr([]);
    var c := NewCmd(ctx, p);
    var g, n := AppendAt(f, at, c), NewLoc(f, at);
    AppendPlaces(f, at, c);
    forall l | Ours(ctx, g, l)
      ensures l == n || (Ours(ctx, f, l) && CmdAt(g, l).model == CmdAt(f, l).model)
    {
      if IsLoc(f, l) {
        AppendKeeps(f, at, c, l);
      } else {
        AppendAddsOne(f, at, c, l);
      }
    }
    assert OnlyPlaced(ctx, g, done + [p]) by {
      forall l | Ours(ctx, g, l) && l != n
        ensures Placed(ctx, g, l, CmdAt(g, l).model.value)
      {
        StaysPlaced(ctx, f, at, c, l, CmdAt(f, l).model.value);
      }
    }
    forall q | q in done + [p] && IsNode(ctx.root, q) && IsRegistered(ctx, q)
      ensures exists l :: IsLoc(g, l) && Placed(ctx, g, l, q)
    {
      if q in done {
        var l :| IsLoc(f, l) && Placed(ctx, f, l, q);
        StaysPlaced(ctx, f, at, c, l, q);
      }
    }
    assert CmdAt(g, n).model == Some(p);
  }

  lemma CompiledSkips(ctx: Context, f: seq<Cmd>, done: seq<Path>, p: Path)
    requires IsNode(ctx.root, p) && !IsRegistered(ctx, p) && Compiled(ctx, f, done)
    ensures Compiled(ctx, f, done + [p])
  {
    hide CmdAt, Placed, IsRegistered;
  }

  // ----- The driver

  /** The command trees that registration works on: the top-level commands, and those below `no`. */
  class Cli {
    var commands: seq<Cmd>
    var noCommands: seq<Cmd>

    constructor (commands: seq<Cmd>, noCommands: seq<Cmd>)
      ensures this.commands == commands && this.noCommands == noCommands
    {
      this.commands, this.noCommands := commands, noCommands;
    }

    /** `register_node_routine`, as far as the configuration commands and their `no` forms go. */
    method RegisterNode(ctx: Context, p: Path, ghost done: seq<Path>)
      requires IsNode(ctx.root, p) && p !in done
      requires forall t :: Target(ctx, p) == Some(t) ==> t in done
      requires Compiled(ctx, commands, done) && Compiled(ctx, noCommands, done)
      modifies this
      ensures Compiled(ctx, commands, done + [p]) && Compiled(ctx, noCommands, done + [p])
    {
      hide Compiled, FindParent, AppendAt, CurrMode, IsTwin;
      var node := NodeAt(ctx.root, p);
      if !node.config || IsTwin(ctx, p) {
        CompiledSkips(ctx, commands, done, p);
        CompiledSkips(ctx, noCommands, done, p);
        return;
      }
      CompiledGrows(ctx, commands, done, p);
      CompiledGrows(ctx, noCommands, done, p);
      ParentFound(ctx, commands, done, p);
      var parentCmd, parentNo := FindParent(ctx, commands, p), FindParent(ctx, noCommands, p);
      var mode;
      if parentCmd.None? {
        mode := CurrMode(ctx, p);
      } else {
        mode := CmdAt(commands, parentCmd.value).mode;
      }
      var cmd := Cmd(Some(p), CmdName(ctx, p), Some(ctx.hash), mode, []);
      assert cmd == NewCmd(ctx, p);
      commands := AppendAt(commands, parentCmd.GetOr([]), cmd);
      noCommands := AppendAt(noCommands, parentNo.GetOr([]), cmd);
    }

    /** `register_commands_schema`: every node in depth-first order. */
    method RegisterSchema(ctx: Context)
      requires forall l :: !Ours(ctx, commands, l) && !Ours(ctx, noCommands, l)
      modifies this
      ensures Compiled(ctx, commands, Preorder(ctx.root, []))
      ensures Compiled(ctx, noCommands, Preorder(ctx.root, []))
    {
      hide IsTwin, Target, CmdName, Models, Chain, PlacedMode;
      var nodes := Preorder(ctx.root, []);
      PreorderExact(ctx.root, []);
      PreorderOrdered(ctx.root, []);
      for k := 0 to |nodes|
        invariant Compiled(ctx, commands, nodes[..k]) && Compiled(ctx, noCommands, nodes[..k])
      {
        NextInOrder(ctx, nodes, k);
        RegisterNode(ctx, nodes[k], nodes[..k]);
        assert nodes[..k] + [nodes[k]] == nodes[..k + 1];
      }
      assert nodes[..|nodes|] == nodes;
    }
  }

  lemma NextInOrder(ctx: Context, nodes: seq<Path>, k: nat)
    requires k < |nodes| && Ordered(nodes, 0)
    requires forall p :: p in nodes <==> AtOrUnder(ctx.root, [], p)
    ensures IsNode(ctx.root, nodes[k]) && nodes[k] !in nodes[..k]
    ensures forall t :: Target(ctx, nodes[k]) == Some(t) ==> t in nodes[..k]
  {
    var p := nodes[k];
    assert p in nodes && p[0..] == p;
    var t := Target(ctx, p);
    if t.Some? {
      assert p[..|t.value|] in nodes[..k];
    }
  }

  // ----- What the commands should be

  /** The containers strictly between a node and its anchor, and the node: `p[..k]` for the lengths
      `k` from `from` to `|p|`. */
  function Prefixes(p: Path, from: nat): seq<Option<Path>>
    requires from <= |p|
    decreases |p| - from
  {
    [Some(p[..from])] + if from == |p| then [] else Prefixes(p, from + 1)
  }

  function IdealChain(ctx: Context, p: Path): seq<Option<Path>>
    requires IsNode(ctx.root, p)
  {
    if p == [] then [Some([])] else Prefixes(p, |Anchor(ctx.root, p)| + 1)
  }

  /** The root is entered from the configuration mode, any other node from the mode that was pushed
      on entering its anchor. */
  function IdealMode(ctx: Context, p: Path): int
    requires IsNode(ctx.root, p)
  {
    if p == [] then MODE_CONFIG else ctx.modeOf(Anchor(ctx.root, p))
  }

  /** No container from below the anchor to the node has the name of its parent. */
  ghost predicate NoTwins(ctx: Context, p: Path)
    requires IsNode(ctx.root, p)
  {
    p != [] ==>
      forall k :: |Anchor(ctx.root, p)| < k <= |p| ==> IsNode(ctx.root, p[..k]) && !IsTwin(ctx, p[..k])
  }

  /** A container is not named like the node it is a child of. */
  ghost predicate NotNamedLikeParent(root: Node, p: Path)
    requires p != []
  {
    && IsNode(root, p) && IsNode(root, p[..|p| - 1])
    && (NodeAt(root, p).kind == Container ==> NodeAt(root, p).name != NodeAt(root, p[..|p| - 1]).name)
  }

  lemma NoTwinsMeans(ctx: Context, p: Path)
    requires IsNode(ctx.root, p) && p != []
    ensures NoTwins(ctx, p) <==>
              forall k :: |Anchor(ctx.root, p)| < k <= |p| ==> NotNamedLikeParent(ctx.root, p[..k])
  {
    forall k | |Anchor(ctx.root, p)| < k <= |p|
      ensures IsNode(ctx.root, p[..k]) && (!IsTwin(ctx, p[..k]) <==> NotNamedLikeParent(ctx.root, p[..k]))
    {
      PrefixIsNode(ctx.root, p, k);
      PrefixIsNode(ctx.root, p[..k], k - 1);
    }
  }

  lemma {:induction false} PrefixesSnoc(p: Path, from: nat)
    requires from < |p|
    ensures Prefixes(p, from) == Prefixes(Parent(p), from) + [Some(p)]
    decreases |p| - from
  {
    assert Parent(p)[..from] == p[..from];
    if from + 1 < |p| {
      PrefixesSnoc(p, from + 1);
    } else {
      assert Parent(p) == p[..from] && p[..|p|] == p;
      assert Prefixes(p, |p|) == [Some(p)];
      assert Prefixes(Parent(p), from) == [Some(Parent(p))];
    }
  }

  /** Without twins, a registered node stands where it should. */
  lemma {:induction false} NoTwinsIdeal(ctx: Context, p: Path)
    requires WellFormed(ctx.root) && IsNode(ctx.root, p) && NodeAt(ctx.root, p).config && NoTwins(ctx, p)
    ensures IsRegistered(ctx, p)
    ensures Chain(ctx, p) == IdealChain(ctx, p) && PlacedMode(ctx, p) == IdealMode(ctx, p)
    decreases |p|
  {
    hide IsNode, NodeAt, WellFormed, Prefixes;
    if p != [] {
      assert p[..|p|] == p;
      ParentOfNode(ctx.root, p);
      var q := Parent(p);
      if IsAnchor(ctx.root, q) {
        TargetIsParent(ctx, p);
        PrefixesOne(p);
      } else {
        forall k | |Anchor(ctx.root, q)| < k <= |q|
          ensures IsNode(ctx.root, q[..k]) && !IsTwin(ctx, q[..k])
        {
          assert q[..k] == p[..k];
        }
        NoTwinsIdeal(ctx, q);
        assert q[..|q|] == q && p[..|q|] == q;
        TargetIsParent(ctx, p);
        PrefixesSnoc(p, |Anchor(ctx.root, p)| + 1);
      }
    }
  }

  lemma PrefixesOne(p: Path)
    ensures Prefixes(p, |p|) == [Some(p)]
  {
    assert p[..|p|] == p;
  }

  /** Without twins the target of a node is its parent, unless that is an anchor. */
  lemma TargetIsParent(ctx: Context, p: Path)
    requires WellFormed(ctx.root) && IsNode(ctx.root, p) && p != []
    ensures IsNode(ctx.root, Parent(p))
    ensures IsAnchor(ctx.root, Parent(p)) ==> Target(ctx, p).None?
    ensures !IsAnchor(ctx.root, Parent(p)) && !IsTwin(ctx, Parent(p)) ==> Target(ctx, p) == Some(Parent(p))
  {
    hide WellFormed;
    ParentOfNode(ctx.root, p);
  }

  lemma {:induction false} ChainRegistered(ctx: Context, p: Path)
    requires IsNode(ctx.root, p)
    ensures forall m <- Chain(ctx, p) ::
              m.Some? && (m.value == p || (IsNode(ctx.root, m.value) && IsRegistered(ctx, m.value)))
    decreases |p|
  {
    hide IsRegistered, IsNode;
    var t := Target(ctx, p);
    if t.Some? && IsRegistered(ctx, t.value) {
      ChainRegistered(ctx, t.value);
    }
  }

  lemma {:induction false} PrefixesContain(p: Path, from: nat, k: nat)
    requires from <= k <= |p|
    ensures Some(p[..k]) in Prefixes(p, from)
    decreases |p| - from
  {
    if from < k {
      PrefixesContain(p, from + 1, k);
    }
  }

  /** With a twin on the way, a registered node cannot stand where it should. */
  lemma IdealNoTwins(ctx: Context, p: Path)
    requires IsNode(ctx.root, p) && IsRegistered(ctx, p) && Chain(ctx, p) == IdealChain(ctx, p)
    ensures NoTwins(ctx, p)
  {
    hide Chain, Prefixes, IsTwin;
    if p != [] {
      ChainRegistered(ctx, p);
      forall k | |Anchor(ctx.root, p)| < k <= |p|
        ensures IsNode(ctx.root, p[..k]) && !IsTwin(ctx, p[..k])
      {
        PrefixesContain(p, |Anchor(ctx.root, p)| + 1, k);
        if k == |p| {
          assert p[..k] == p;
        }
      }
    }
  }

  /** The command at `l` is the configuration command of `p`, under its name, in the mode pushed on entering its
      anchor and below exactly the containers strictly between the two. */
  ghost predicate Ideal(ctx: Context, f: seq<Cmd>, l: Loc, p: Path)
    requires IsNode(ctx.root, p)
  {
    && Ours(ctx, f, l) && CmdAt(f, l).model == Some(p)
    && CmdAt(f, l).name == (if p == [] then ctx.rootName else NodeAt(ctx.root, p).name)
    && Models(f, l) == IdealChain(ctx, p) && CmdAt(f, l).mode == IdealMode(ctx, p)
  }

  /** Placement: after registration a node without configuration has no command, no node has two,
      and a configuration node is placed as it should be exactly when no container from below its
      anchor down to it has the name of its parent. The same holds below `no`. */
  lemma Placement(ctx: Context, f: seq<Cmd>, p: Path)
    requires WellFormed(ctx.root) && IsNode(ctx.root, p)
    requires Compiled(ctx, f, Preorder(ctx.root, []))
    ensures !NodeAt(ctx.root, p).config ==> forall l :: Ours(ctx, f, l) ==> CmdAt(f, l).model != Some(p)
    ensures forall l, m | Ours(ctx, f, l) && Ours(ctx, f, m) && CmdAt(f, l).model == CmdAt(f, m).model :: l == m
    ensures NodeAt(ctx.root, p).config ==>
              ((exists l :: Ideal(ctx, f, l, p)) <==>
                 p == [] || forall k :: |Anchor(ctx.root, p)| < k <= |p| ==> NotNamedLikeParent(ctx.root, p[..k]))
  {
    hide Chain, Prefixes, Models, IsTwin, NotNamedLikeParent, CmdAt, Hashed, Anchor, PlacedMode;
    PreorderExact(ctx.root, []);
    assert p[0..] == p && AtOrUnder(ctx.root, [], p);
    if p != [] {
      NoTwinsMeans(ctx, p);
    }
    if NodeAt(ctx.root, p).config {
      if NoTwins(ctx, p) {
        NoTwinsIdeal(ctx, p);
        var l :| IsLoc(f, l) && Placed(ctx, f, l, p);
        HashedAt(f, l, ctx.hash);
        assert Ideal(ctx, f, l, p);
      }
      forall l | Ideal(ctx, f, l, p)
        ensures NoTwins(ctx, p)
      {
        assert Placed(ctx, f, l, p);
        IdealNoTwins(ctx, p);
      }
    }
  }

  /** The node whose command that of `p` stands below, in all schemas: the container it is a child of;
      when that is named like its own parent, this one, unless it is again named like its parent. */
  ghost function StandsBelow(root: Node, p: Path): Option<Path>
    requires IsNode(root, p)
  {
    if |p| < 2 then None
    else
      PrefixIsNode(root, p, |p| - 1);
      PrefixIsNode(root, p, |p| - 2);
      var q, g := p[..|p| - 1], p[..|p| - 2];
      if NodeAt(root, q).kind != Container then None
      else if NodeAt(root, q).name != NodeAt(root, g).name then Some(q)
      else if g == [] || NotNamedLikeParent(root, g) then Some(g)
      else None
  }

  lemma TargetStands(ctx: Context, p: Path)
    requires WellFormed(ctx.root) && IsNode(ctx.root, p) && NodeAt(ctx.root, p).config
    ensures var t, a := Target(ctx, p), StandsBelow(ctx.root, p);
            && (a.Some? ==> IsNode(ctx.root, a.value))
            && a == if t.Some? && IsRegistered(ctx, t.value) then t else None
  {
    if |p| >= 2 {
      ParentOfNode(ctx.root, p);
      var q := Parent(p);
      ParentOfNode(ctx.root, q);
      var g := Parent(q);
      assert q == p[..|p| - 1] && g == p[..|p| - 2];
      hide WellFormed, IsNode, NodeAt;
      if g != [] {
        ParentIsNode(ctx.root, g);
        assert Parent(g) == g[..|g| - 1];
      }
    }
  }

  /** Where each command stands, with or without twins: directly below that of the node it belongs
      under and in its mode, and without such a node at the top, in the mode of its schema parent. */
  lemma PlacementStep(ctx: Context, f: seq<Cmd>, p: Path, l: Loc)
    requires WellFormed(ctx.root) && IsNode(ctx.root, p) && Compiled(ctx, f, Preorder(ctx.root, []))
    requires Ours(ctx, f, l) && CmdAt(f, l).model == Some(p)
    ensures StandsBelow(ctx.root, p).None? ==>
              && Models(f, l) == [Some(p)]
              && CmdAt(f, l).mode == if p == [] then MODE_CONFIG else ctx.modeOf(p[..|p| - 1])
    ensures StandsBelow(ctx.root, p).Some? ==>
              exists m :: IsLoc(f, m) && Ours(ctx, f, m) && CmdAt(f, m).model == StandsBelow(ctx.root, p)
                && Models(f, l) == Models(f, m) + [Some(p)] && CmdAt(f, l).mode == CmdAt(f, m).mode
  {
    hide Models, CmdAt, Hashed, StandsBelow, Target, IsTwin, WellFormed;
    assert Placed(ctx, f, l, p) && NodeAt(ctx.root, p).config;
    TargetStands(ctx, p);
    var a := StandsBelow(ctx.root, p);
    if a.Some? {
      PreorderExact(ctx.root, []);
      assert a.value[0..] == a.value && AtOrUnder(ctx.root, [], a.value);
      var m :| IsLoc(f, m) && Placed(ctx, f, m, a.value);
      HashedAt(f, m, ctx.hash);
    } else {
      assert [] + [Some(p)] == [Some(p)];
    }
  }
}

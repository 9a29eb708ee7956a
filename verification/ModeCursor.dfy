/** The mode stack and the data cursor: entering a root container or a list pushes a mode and moves
    `parent_data`; `exit` pops the mode and moves the cursor back up. */
module ModeCursor {
  import opened CStrings
  import opened Modes
  import opened Schema

  /** A data node: the module it belongs to, its schema node, and the key values of each step. */
  datatype DataNode = DataNode(mod: nat, path: Path, keys: seq<seq<string>>) {
    /** The node's ancestor that is `n` steps below the root. */
    function Up(n: nat): DataNode
      requires n <= |path| && n <= |keys|
    {
      DataNode(mod, path[..n], keys[..n])
    }
  }

  /** The modules with their schemas, and the mode that stands for each of their nodes. */
  datatype Modules = Modules(roots: seq<Node>, modeOf: (nat, Path) -> int) {

    ghost predicate Valid() {
      && (forall m, p :: modeOf(m, p) > MODE_CONFIG)
      && (forall m, p, n, q :: modeOf(m, p) == modeOf(n, q) ==> m == n && p == q)
      && (forall r <- roots :: WellFormed(r))
    }

    /** A node that the cursor can stand on. */
    ghost predicate IsCursor(d: DataNode) {
      && d.mod < |roots| && IsNode(roots[d.mod], d.path) && IsAnchor(roots[d.mod], d.path)
      && |d.keys| == |d.path|
    }

    /** The cursor after leaving the node: its nearest list-or-root ancestor. */
    ghost function Above(d: DataNode): Option<DataNode>
      requires IsCursor(d)
    {
      if d.path == [] then None else Some(d.Up(|Anchor(roots[d.mod], d.path)|))
    }

    /** The modes of a node's list-or-root ancestors and of the node itself, from the root down. */
    ghost function AnchorModes(m: nat, p: Path): seq<int>
      requires m < |roots| && IsNode(roots[m], p)
      decreases |p|
    {
      (if p == [] then [] else AnchorModes(m, Anchor(roots[m], p))) + [modeOf(m, p)]
    }
  }

  /** What the session keeps between commands: the candidate trees are known by their modules. */
  datatype State = State(modes: ModeState, cursor: Option<DataNode>, trees: seq<nat>)

  datatype Op =
    | EnterRoot(mod: nat, running: bool)
    | EnterList(mod: nat, path: Path, keys: seq<string>, created: bool)
    | Exit(uncommitted: bool)
    | SetMode(exec: bool)

  /** The list commands that lead anywhere are those of lists with more than keys. */
  predicate HasNonKey(n: Node) {
    exists c <- n.children :: !c.key
  }

  /** The operation can be called: its command belongs to the current mode. A root that is entered
      when there is no candidate tree must not rely on a cursor into a tree that was freed. */
  ghost predicate Enabled(ms: Modules, s: State, op: Op) {
    match op
    case EnterRoot(m, running) =>
      m < |ms.roots| && ms.roots[m].kind == Container && s.modes.mode == MODE_CONFIG
      && (s.trees == [] && !running ==> s.cursor.None?)
    case EnterList(m, p, keys, created) =>
      m < |ms.roots| && IsNode(ms.roots[m], p) && p != [] && NodeAt(ms.roots[m], p).kind == List
      && s.modes.mode == ms.modeOf(m, Anchor(ms.roots[m], p))
    case Exit(uncommitted) => true
    case SetMode(exec) => true
  }

  /** The invariant: a mode above the configuration has a stack, and a non-empty stack holds the
      modes of the list-or-root ancestors of the cursor, root first, itself last, and the cursor is
      in a candidate tree. */
  ghost predicate InStep(ms: Modules, s: State) {
    && (s.cursor.Some? ==> ms.IsCursor(s.cursor.value))
    && (s.modes.stack == [] ==> s.modes.mode == MODE_EXEC || s.modes.mode == MODE_CONFIG)
    && (s.modes.stack != [] ==>
          && s.cursor.Some? && s.cursor.value.mod in s.trees
          && var chain := ms.AnchorModes(s.cursor.value.mod, s.cursor.value.path);
          && |s.modes.stack| == |chain|
          && (forall i :: 0 <= i < |chain| ==> s.modes.stack[i].mode == chain[i])
          && s.modes.mode == chain[|chain| - 1])
  }

  /** The entry of a list below the cursor. */
  function Entry(d: DataNode, p: Path, keys: seq<string>): DataNode
    requires |d.path| < |p| && |d.keys| == |d.path|
  {
    DataNode(d.mod, d.path + p[|d.path|..], d.keys + seq(|p| - |d.path| - 1, i => []) + [keys])
  }

  /** What an operation does. The text shown in the prompt is `desc`. */
  ghost function Step(ms: Modules, s: State, op: Op, desc: string): State
    requires ms.Valid() && InStep(ms, s) && Enabled(ms, s, op)
  {
    match op
    case EnterRoot(m, running) =>
      State(s.modes.Push(ms.modeOf(m, []), desc), Some(DataNode(m, [], [])),
            if m in s.trees then s.trees else [m] + s.trees)
    case EnterList(m, p, keys, created) =>
      if !created || !HasNonKey(NodeAt(ms.roots[m], p)) then s
      else
        CursorIsAnchor(ms, s, m, p);
        State(s.modes.Push(ms.modeOf(m, p), desc), Some(Entry(s.cursor.value, p, keys)), s.trees)
    case Exit(uncommitted) =>
      if s.modes.mode == MODE_CONFIG then
        if s.trees != [] && uncommitted then s else State(s.modes.Exit(), s.cursor, [])
      else State(s.modes.Exit(), if s.cursor.Some? then ms.Above(s.cursor.value) else None, s.trees)
    case SetMode(exec) =>
      State(s.modes.Set(if exec then MODE_EXEC else MODE_CONFIG), s.cursor, s.trees)
  }

  /** In a mode that offers the commands below `Anchor(p)`, the cursor stands on that anchor. */
  lemma CursorIsAnchor(ms: Modules, s: State, m: nat, p: Path)
    requires ms.Valid() && InStep(ms, s)
    requires m < |ms.roots| && IsNode(ms.roots[m], p) && p != []
    requires s.modes.mode == ms.modeOf(m, Anchor(ms.roots[m], p))
    ensures s.cursor.Some? && s.cursor.value.mod == m && s.cursor.value.path == Anchor(ms.roots[m], p)
    ensures |s.cursor.value.keys| == |s.cursor.value.path|
  {
    hide IsNode, IsAnchor, Anchor, WellFormed;
    assert s.modes.mode > MODE_CONFIG;
  }

  lemma EntryIsCursor(ms: Modules, d: DataNode, p: Path, keys: seq<string>)
    requires ms.IsCursor(d) && IsNode(ms.roots[d.mod], p) && p != []
    requires NodeAt(ms.roots[d.mod], p).kind == List && d.path == Anchor(ms.roots[d.mod], p)
    ensures Entry(d, p, keys).path == p && ms.IsCursor(Entry(d, p, keys))
  {
    hide IsNode, Anchor;
    assert p[..|d.path|] + p[|d.path|..] == p;
  }

  lemma AboveIsCursor(ms: Modules, d: DataNode)
    requires ms.IsCursor(d)
    ensures ms.Above(d).Some? ==> ms.IsCursor(ms.Above(d).value)
  {
    hide IsNode;
  }

  /** Every operation keeps the mode stack and the cursor in step. */
  lemma StepKeepsInStep(ms: Modules, s: State, op: Op, desc: string)
    requires ms.Valid() && InStep(ms, s) && Enabled(ms, s, op)
    ensures InStep(ms, Step(ms, s, op, desc))
  {
    hide IsNode, Anchor, NodeAt, WellFormed;
    match op
    case EnterRoot(m, running) =>
      assert IsNode(ms.roots[m], []) by { RootIsNode(ms.roots[m]); }
    case EnterList(m, p, keys, created) =>
      CursorIsAnchor(ms, s, m, p);
      EntryIsCursor(ms, s.cursor.value, p, keys);
    case Exit(uncommitted) =>
      if s.cursor.Some? {
        AboveIsCursor(ms, s.cursor.value);
      }
    case SetMode(exec) =>
  }

  lemma RootIsNode(root: Node)
    ensures IsNode(root, []) && IsAnchor(root, [])
  {
  }

  // ----- Runs

  /** A run of operations, each with the text it would show in the prompt. */
  ghost predicate CanRun(ms: Modules, s: State, ops: seq<(Op, string)>)
    requires ms.Valid() && InStep(ms, s)
    decreases |ops|
  {
    ops == [] ||
    (Enabled(ms, s, ops[0].0)
     && (StepKeepsInStep(ms, s, ops[0].0, ops[0].1);
         CanRun(ms, Step(ms, s, ops[0].0, ops[0].1), ops[1..])))
  }

  ghost function Run(ms: Modules, s: State, ops: seq<(Op, string)>): State
    requires ms.Valid() && InStep(ms, s) && CanRun(ms, s, ops)
    decreases |ops|
  {
    if ops == [] then s
    else
      StepKeepsInStep(ms, s, ops[0].0, ops[0].1);
      Run(ms, Step(ms, s, ops[0].0, ops[0].1), ops[1..])
  }

  const START: State := State(ModeState(MODE_EXEC, []), None, [])

  /** In every run the mode stack and the cursor stay in step. */
  lemma {:induction false} RunStaysInStep(ms: Modules, s: State, ops: seq<(Op, string)>)
    requires ms.Valid() && InStep(ms, s) && CanRun(ms, s, ops)
    ensures InStep(ms, Run(ms, s, ops))
    decreases |ops|
  {
    hide InStep, Enabled, Step;
    if ops != [] {
      StepKeepsInStep(ms, s, ops[0].0, ops[0].1);
      RunStaysInStep(ms, Step(ms, s, ops[0].0, ops[0].1), ops[1..]);
    }
  }

  lemma CanRunPrefix(ms: Modules, s: State, ops: seq<(Op, string)>, k: nat)
    requires ms.Valid() && InStep(ms, s) && CanRun(ms, s, ops) && k <= |ops|
    ensures CanRun(ms, s, ops[..k])
    decreases k
  {
    hide InStep, Enabled, Step;
    if k > 0 {
      StepKeepsInStep(ms, s, ops[0].0, ops[0].1);
      CanRunPrefix(ms, Step(ms, s, ops[0].0, ops[0].1), ops[1..], k - 1);
      assert ops[..k][1..] == ops[1..][..k - 1];
    }
  }

  /** What each operation does to the candidate trees. */
  lemma TreesAfterStep(ms: Modules, s: State, op: Op, desc: string)
    requires ms.Valid() && InStep(ms, s) && Enabled(ms, s, op)
    ensures var t := Step(ms, s, op, desc);
            && (op == Exit(false) && s.modes.mode == MODE_CONFIG ==> t.trees == [])
            && (!(op == Exit(false) && s.modes.mode == MODE_CONFIG) ==> forall m <- s.trees :: m in t.trees)
  {
    hide IsNode, NodeAt, Anchor, WellFormed;
  }

  /** In every run a candidate tree disappears only by an exit from MODE_CONFIG without uncommitted
      changes, and then all of them do. */
  lemma {:induction false} TreesFreedByExit(ms: Modules, s: State, ops: seq<(Op, string)>, m: nat) returns (k: nat)
    requires ms.Valid() && InStep(ms, s) && CanRun(ms, s, ops)
    requires m in s.trees && m !in Run(ms, s, ops).trees
    ensures k < |ops| && ops[k].0 == Exit(false)
    ensures CanRun(ms, s, ops[..k]) && CanRun(ms, s, ops[..k + 1])
    ensures Run(ms, s, ops[..k]).modes.mode == MODE_CONFIG && m in Run(ms, s, ops[..k]).trees
    ensures Run(ms, s, ops[..k + 1]).trees == []
    decreases |ops|
  {
    hide InStep, Enabled, Step;
    var op, desc := ops[0].0, ops[0].1;
    StepKeepsInStep(ms, s, op, desc);
    TreesAfterStep(ms, s, op, desc);
    var t := Step(ms, s, op, desc);
    if op == Exit(false) && s.modes.mode == MODE_CONFIG {
      assert ops[..0] == [] && ops[..1] == [ops[0]] && [ops[0]][1..] == [];
      return 0;
    }
    var j := TreesFreedByExit(ms, t, ops[1..], m);
    k := j + 1;
    assert ops[..k][1..] == ops[1..][..j] && ops[..k + 1][1..] == ops[1..][..j + 1];
    CanRunPrefix(ms, s, ops, k);
    CanRunPrefix(ms, s, ops, k + 1);
  }

  // ----- Leaving what was entered

  /** `n` times `exit`. */
  ghost function AfterExits(ms: Modules, s: State, n: nat): (r: State)
    requires ms.Valid() && InStep(ms, s)
    ensures InStep(ms, r)
    decreases n
  {
    if n == 0 then s
    else
      StepKeepsInStep(ms, s, Exit(false), "");
      AfterExits(ms, Step(ms, s, Exit(false), ""), n - 1)
  }

  lemma {:induction false} ExitsAddUp(ms: Modules, s: State, a: nat, b: nat)
    requires ms.Valid() && InStep(ms, s)
    ensures AfterExits(ms, s, a + b) == AfterExits(ms, AfterExits(ms, s, a), b)
    decreases a
  {
    hide InStep, Step;
    if a > 0 {
      StepKeepsInStep(ms, s, Exit(false), "");
      ExitsAddUp(ms, Step(ms, s, Exit(false), ""), a - 1, b);
    }
  }

  /** A list entry that really enters the list. */
  predicate Enters(ms: Modules, op: Op) {
    op.EnterList? && op.created && op.mod < |ms.roots| && IsNode(ms.roots[op.mod], op.path)
    && HasNonKey(NodeAt(ms.roots[op.mod], op.path))
  }

  /** Exiting a list restores the very state in which it was entered. */
  lemma ExitUndoesEntry(ms: Modules, s: State, op: Op, desc: string)
    requires ms.Valid() && InStep(ms, s) && Enabled(ms, s, op) && Enters(ms, op)
    ensures InStep(ms, Step(ms, s, op, desc))
    ensures Step(ms, Step(ms, s, op, desc), Exit(false), "") == s
  {
    hide IsNode, Anchor, NodeAt, WellFormed, HasNonKey;
    StepKeepsInStep(ms, s, op, desc);
    CursorIsAnchor(ms, s, op.mod, op.path);
    var d := s.cursor.value;
    EntryIsCursor(ms, d, op.path, op.keys);
    var e := Entry(d, op.path, op.keys);
    assert e.Up(|d.path|) == d;
    ModesConsistent(ms, s);
    ExitUndoesPush(s.modes, ms.modeOf(op.mod, op.path), desc);
  }

  lemma ModesConsistent(ms: Modules, s: State)
    requires ms.Valid() && InStep(ms, s)
    ensures s.modes.Consistent()
    ensures s.modes.mode > MODE_CONFIG <==> s.modes.stack != []
  {
    hide IsNode, Anchor, NodeAt, WellFormed;
    if s.modes.stack != [] {
      AnchorModesHigh(ms, s.cursor.value.mod, s.cursor.value.path);
      var chain := ms.AnchorModes(s.cursor.value.mod, s.cursor.value.path);
      assert forall i :: 0 <= i < |chain| ==> chain[i] in chain;
    }
  }

  lemma {:induction false} AnchorModesHigh(ms: Modules, m: nat, p: Path)
    requires ms.Valid() && m < |ms.roots| && IsNode(ms.roots[m], p)
    ensures forall mode <- ms.AnchorModes(m, p) :: mode > MODE_CONFIG
    decreases |p|
  {
    hide IsNode, Anchor, NodeAt, WellFormed;
    if p != [] {
      AnchorModesHigh(ms, m, Anchor(ms.roots[m], p));
    }
  }

  /** As many exits as lists were entered restore the state before the first of them. */
  lemma {:induction false} ExitsUndoEntries(ms: Modules, s: State, ops: seq<(Op, string)>)
    requires ms.Valid() && InStep(ms, s) && CanRun(ms, s, ops)
    requires forall o <- ops :: Enters(ms, o.0)
    ensures InStep(ms, Run(ms, s, ops)) && AfterExits(ms, Run(ms, s, ops), |ops|) == s
    decreases |ops|
  {
    hide InStep, Enabled, Step, Enters, AfterExits;
    RunStaysInStep(ms, s, ops);
    if ops == [] {
      NoExits(ms, s);
    } else {
      assert ops[0] in ops && forall o <- ops[1..] :: o in ops;
      StepKeepsInStep(ms, s, ops[0].0, ops[0].1);
      var s' := Step(ms, s, ops[0].0, ops[0].1);
      ExitsUndoEntries(ms, s', ops[1..]);
      ExitsAddUp(ms, Run(ms, s, ops), |ops| - 1, 1);
      OneExit(ms, s');
      ExitUndoesEntry(ms, s, ops[0].0, ops[0].1);
    }
  }

  lemma NoExits(ms: Modules, s: State)
    requires ms.Valid() && InStep(ms, s)
    ensures AfterExits(ms, s, 0) == s
  {
  }

  lemma OneExit(ms: Modules, s: State)
    requires ms.Valid() && InStep(ms, s)
    ensures AfterExits(ms, s, 1) == Step(ms, s, Exit(false), "")
  {
    hide InStep, Step;
    StepKeepsInStep(ms, s, Exit(false), "");
    NoExits(ms, Step(ms, s, Exit(false), ""));
  }

  /** Entering a root and then any lists, and exiting as often, ends in MODE_CONFIG with an empty
      stack and no cursor. */
  lemma ExitsRestoreConfig(ms: Modules, s: State, root: Op, desc: string, ops: seq<(Op, string)>)
    requires ms.Valid() && InStep(ms, s) && root.EnterRoot? && Enabled(ms, s, root)
    requires InStep(ms, Step(ms, s, root, desc)) && CanRun(ms, Step(ms, s, root, desc), ops)
    requires forall o <- ops :: Enters(ms, o.0)
    ensures var entered := Run(ms, Step(ms, s, root, desc), ops);
            && InStep(ms, entered)
            && var left := AfterExits(ms, entered, |ops| + 1);
            && left.modes == ModeState(MODE_CONFIG, []) && left.cursor.None?
  {
    hide InStep, Enabled, Enters, Step, Run, CanRun, AfterExits;
    var s' := Step(ms, s, root, desc);
    ExitsUndoEntries(ms, s', ops);
    ExitsAddUp(ms, Run(ms, s', ops), |ops|, 1);
    OneExit(ms, s');
    ExitLeavesRoot(ms, s, root, desc);
  }

  lemma ExitLeavesRoot(ms: Modules, s: State, root: Op, desc: string)
    requires ms.Valid() && InStep(ms, s) && root.EnterRoot? && Enabled(ms, s, root)
    requires InStep(ms, Step(ms, s, root, desc))
    ensures var left := Step(ms, Step(ms, s, root, desc), Exit(false), "");
            left.modes == ModeState(MODE_CONFIG, []) && left.cursor.None?
  {
    hide IsNode, Anchor, NodeAt, WellFormed;
  }

  // ----- The walks that choose the anchor

  /** The walk of `get_relative_path` from the parent of a node. */
  method RelativeRoot(root: Node, p: Path) returns (rootParent: Path)
    requires IsNode(root, p) && p != []
    ensures rootParent == Anchor(root, p)
  {
    ParentIsNode(root, p);
    rootParent := Parent(p);
    while NodeAt(root, rootParent).kind != List
      invariant IsNode(root, rootParent) && |rootParent| < |p|
      invariant Anchor(root, p) == if IsAnchor(root, rootParent) then rootParent else Anchor(root, rootParent)
      decreases |rootParent|
    {
      if rootParent == [] {
        break;
      }
      ParentIsNode(root, rootParent);
      rootParent := Parent(rootParent);
    }
  }

  /** The walk of `cmd_exit2` from the parent of the cursor. */
  method Ascend(ms: Modules, d: DataNode) returns (prev: Option<DataNode>)
    requires ms.IsCursor(d)
    ensures prev == ms.Above(d)
  {
    hide IsNode, NodeAt;
    if d.path == [] {
      return None;
    }
    ghost var root := ms.roots[d.mod];
    ParentIsNode(root, d.path);
    var n: nat := |d.path| - 1;
    while n > 0 && NodeAt(ms.roots[d.mod], d.path[..n]).kind != List
      invariant n < |d.path| && IsNode(root, d.path[..n])
      invariant |Anchor(root, d.path)| == if IsAnchor(root, d.path[..n]) then n else |Anchor(root, d.path[..n])|
      decreases n
    {
      assert Parent(d.path[..n]) == d.path[..n - 1];
      ParentIsNode(root, d.path[..n]);
      n := n - 1;
    }
    prev := Some(d.Up(n));
  }

  // ----- The session

  /** The globals `parent_data` and `config_root_tree`, and the terminal whose modes they follow. */
  class Session {
    const terminal: Terminal
    const modules: Modules
    var parentData: Option<DataNode>
    var rootTrees: seq<nat>

    function Now(): State
      reads this, terminal
    {
      State(terminal.State(), parentData, rootTrees)
    }

    ghost predicate Valid()
      reads this, terminal
    {
      modules.Valid() && InStep(modules, Now())
    }

    constructor (modules: Modules)
      requires modules.Valid()
      ensures Valid() && Now() == START && this.modules == modules && fresh(terminal)
    {
      terminal := new Terminal();
      this.modules, parentData, rootTrees := modules, None, [];
    }

    /** `cmd_yang_container` on a root container, with `edit_node_data_tree` below it. The data of a
        new tree come from the running datastore or are created. */
    method EnterRootContainer(m: nat, running: bool, desc: string)
      requires Valid() && Enabled(modules, Now(), EnterRoot(m, running))
      modifies this, terminal
      ensures Valid() && Now() == Step(modules, old(Now()), EnterRoot(m, running), desc)
      ensures parentData == Some(DataNode(m, [], []))
      ensures rootTrees == if m in old(rootTrees) then old(rootTrees) else [m] + old(rootTrees)
      ensures terminal.mode == modules.modeOf(m, []) && terminal.modeStack == [Modes.Entry(terminal.mode, desc)]
    {
      hide InStep, Enabled;
      RootFromConfig(modules, Now(), m, running);
      StepKeepsInStep(modules, Now(), EnterRoot(m, running), desc);
      if rootTrees == [] {
        assert [m] + rootTrees == [m];
        rootTrees := [m];
        parentData := Some(DataNode(m, [], []));
      } else {
        var i := 0;
        while i < |rootTrees| && rootTrees[i] != m
          invariant 0 <= i <= |rootTrees| && m !in rootTrees[..i]
        {
          i := i + 1;
        }
        if i == |rootTrees| {
          assert rootTrees[..i] == rootTrees;
          rootTrees := [m] + rootTrees;
        } else {
          assert rootTrees[i] in rootTrees;
        }
        parentData := Some(DataNode(m, [], []));
      }
      terminal.PushConfigmode(modules.modeOf(m, []), desc);
    }

    /** `cmd_yang_list`, with `edit_node_data_tree_list` below it. */
    method EnterListEntry(m: nat, p: Path, keys: seq<string>, created: bool, desc: string)
      requires Valid() && Enabled(modules, Now(), EnterList(m, p, keys, created))
      modifies this, terminal
      ensures Valid() && Now() == Step(modules, old(Now()), EnterList(m, p, keys, created), desc)
      ensures rootTrees == old(rootTrees)
      ensures created && (exists c <- NodeAt(modules.roots[m], p).children :: !c.key) ==>
                && old(parentData).Some? && parentData.Some? && parentData.value.mod == m && parentData.value.path == p
                && |parentData.value.keys| == |p| && parentData.value.keys[|p| - 1] == keys
                && old(parentData).value.keys <= parentData.value.keys
                && terminal.mode == modules.modeOf(m, p)
                && terminal.modeStack == old(terminal.modeStack) + [Modes.Entry(terminal.mode, desc)]
      ensures !created || (forall c <- NodeAt(modules.roots[m], p).children :: c.key) ==> Now() == old(Now())
    {
      hide InStep, IsNode, NodeAt, Anchor;
      StepKeepsInStep(modules, Now(), EnterList(m, p, keys, created), desc);
      CursorIsAnchor(modules, Now(), m, p);
      if !created || !HasNonKey(NodeAt(modules.roots[m], p)) {
        return;
      }
      var anchor := RelativeRoot(modules.roots[m], p);
      parentData := Some(DataNode(m, parentData.value.path + p[|anchor|..],
                                  parentData.value.keys + seq(|p| - |anchor| - 1, i => []) + [keys]));
      terminal.PushConfigmode(modules.modeOf(m, p), desc);
    }

    /** `cmd_exit2`. The answer of the datastore decides whether the configuration may be left. */
    method CmdExit(uncommitted: bool) returns (quit: bool)
      requires Valid()
      modifies this, terminal
      ensures Valid() && Now() == Step(modules, old(Now()), Exit(uncommitted), "")
      ensures quit <==> old(terminal.mode) == MODE_EXEC
      ensures old(terminal.mode) == MODE_CONFIG && old(rootTrees) != [] && uncommitted ==> Now() == old(Now())
      ensures old(terminal.mode) == MODE_CONFIG && !(old(rootTrees) != [] && uncommitted) ==>
                terminal.mode == MODE_EXEC && terminal.modeStack == [] && rootTrees == []
      ensures old(terminal.mode) != MODE_CONFIG ==> rootTrees == old(rootTrees)
      ensures |old(terminal.modeStack)| == 1 ==> terminal.mode == MODE_CONFIG && terminal.modeStack == []
      ensures |old(terminal.modeStack)| > 1 ==>
                && terminal.modeStack == old(terminal.modeStack)[..|old(terminal.modeStack)| - 1]
                && terminal.mode == terminal.modeStack[|terminal.modeStack| - 1].mode
    {
      ModesConsistent(modules, Now());
      hide InStep;
      StepKeepsInStep(modules, Now(), Exit(uncommitted), "");
      if terminal.mode == MODE_CONFIG {
        if rootTrees != [] {
          if uncommitted {
            return false;
          }
          rootTrees := [];
        }
        quit := terminal.Exit();
        return;
      }
      if parentData.Some? {
        CursorOfState(modules, Now());
        parentData := Ascend(modules, parentData.value);
      }
      quit := terminal.Exit();
    }

    /** `cli_set_configmode` to MODE_CONFIG, as lookup does it, or to MODE_EXEC. */
    method SetConfigmode(exec: bool)
      requires Valid()
      modifies this, terminal
      ensures Valid() && Now() == Step(modules, old(Now()), SetMode(exec), "")
      ensures terminal.mode == (if exec then MODE_EXEC else MODE_CONFIG) && terminal.modeStack == []
      ensures parentData == old(parentData) && rootTrees == old(rootTrees)
    {
      hide InStep;
      StepKeepsInStep(modules, Now(), SetMode(exec), "");
      terminal.SetConfigmode(if exec then MODE_EXEC else MODE_CONFIG);
    }
  }

  /** A root is entered with no mode pushed. */
  lemma RootFromConfig(ms: Modules, s: State, m: nat, running: bool)
    requires ms.Valid() && InStep(ms, s) && Enabled(ms, s, EnterRoot(m, running))
    ensures s.modes == ModeState(MODE_CONFIG, [])
  {
    ModesConsistent(ms, s);
  }

  lemma CursorOfState(ms: Modules, s: State)
    requires InStep(ms, s) && s.cursor.Some?
    ensures ms.IsCursor(s.cursor.value)
  {
  }
}

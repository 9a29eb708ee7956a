/** The tree of generated commands: where a command stands, appending one, and the search for the
    command of a schema node (`search_cmds`). */
module CommandForest {
  import opened CStrings
  import opened Schema

  /** A command with its schema node and the module it was generated for. */
  datatype Cmd = Cmd(model: Option<Path>, name: string, hash: Option<string>, mode: int, kids: seq<Cmd>)

  /** The position of a command: the index at each level, from the top. */
  type Loc = seq<nat>

  predicate IsLoc(f: seq<Cmd>, l: Loc)
    decreases |l|
  {
    l != [] && l[0] < |f| && (|l| > 1 ==> IsLoc(f[l[0]].kids, l[1..]))
  }

  function CmdAt(f: seq<Cmd>, l: Loc): Cmd
    requires IsLoc(f, l)
    decreases |l|
  {
    if |l| == 1 then f[l[0]] else CmdAt(f[l[0]].kids, l[1..])
  }

  /** The schema nodes of the commands from the top down to `l`. */
  function Models(f: seq<Cmd>, l: Loc): seq<Option<Path>>
    requires IsLoc(f, l)
    decreases |l|
  {
    [f[l[0]].model] + if |l| == 1 then [] else Models(f[l[0]].kids, l[1..])
  }

  /** Every command from the top down to `l` belongs to the module. */
  predicate Hashed(f: seq<Cmd>, l: Loc, hash: string)
    requires IsLoc(f, l)
    decreases |l|
  {
    f[l[0]].hash == Some(hash) && (|l| > 1 ==> Hashed(f[l[0]].kids, l[1..], hash))
  }

  // ----- Searching

  /** `search_cmds` from sibling `i` on: children first, then the command itself. */
  function Search(f: seq<Cmd>, i: nat, target: Path, name: string, hash: string): Option<Loc>
    requires i <= |f|
    decreases f, |f| - i
  {
    if i == |f| then None
    else if f[i].hash != Some(hash) then Search(f, i + 1, target, name, hash)
    else
      var below := Search(f[i].kids, 0, target, name, hash);
      if below.Some? then Some([i] + below.value)
      else if f[i].model == Some(target) && f[i].name == name then Some([i])
      else Search(f, i + 1, target, name, hash)
  }

  predicate IsHit(f: seq<Cmd>, l: Loc, target: Path, name: string, hash: string) {
    IsLoc(f, l) && Hashed(f, l, hash) && CmdAt(f, l).model == Some(target) && CmdAt(f, l).name == name
  }

  /** The search finds a command of the node exactly when there is one. */
  lemma {:induction false} SearchFinds(f: seq<Cmd>, i: nat, target: Path, name: string, hash: string)
    requires i <= |f|
    ensures match Search(f, i, target, name, hash)
            case Some(l) => IsHit(f, l, target, name, hash)
            case None => forall l :: IsHit(f, l, target, name, hash) ==> l[0] < i
    decreases f, |f| - i
  {
    if i < |f| {
      SearchFinds(f, i + 1, target, name, hash);
      SearchFinds(f[i].kids, 0, target, name, hash);
      var below := Search(f[i].kids, 0, target, name, hash);
      if below.Some? {
        assert ([i] + below.value)[1..] == below.value;
      }
      forall l | IsHit(f, l, target, name, hash) && l[0] == i
        ensures Search(f, i, target, name, hash).Some?
      {
        assert |l| > 1 ==> IsHit(f[i].kids, l[1..], target, name, hash);
      }
    }
  }

  // ----- Appending

  /** `cli_register_command` below the command at `l`, or at the top for `[]`. */
  function AppendAt(f: seq<Cmd>, l: Loc, c: Cmd): seq<Cmd>
    requires l == [] || IsLoc(f, l)
    decreases |l|
  {
    if l == [] then f + [c]
    else f[l[0] := f[l[0]].(kids := AppendAt(f[l[0]].kids, l[1..], c))]
  }

  /** The position that `AppendAt` gives to the new command. */
  function NewLoc(f: seq<Cmd>, l: Loc): (r: Loc)
    requires l == [] || IsLoc(f, l)
    ensures |r| == |l| + 1 && r[..|l|] == l
    decreases |l|
  {
    if l == [] then [|f|] else [l[0]] + NewLoc(f[l[0]].kids, l[1..])
  }

  /** Apart from its children, a command does not change when another one is appended. */
  predicate Same(a: Cmd, b: Cmd) {
    a.model == b.model && a.name == b.name && a.hash == b.hash && a.mode == b.mode
  }

  lemma {:induction false} AppendKeeps(f: seq<Cmd>, l: Loc, c: Cmd, m: Loc)
    requires (l == [] || IsLoc(f, l)) && IsLoc(f, m)
    ensures var g := AppendAt(f, l, c);
            && IsLoc(g, m) && Same(CmdAt(g, m), CmdAt(f, m)) && Models(g, m) == Models(f, m)
            && forall hash :: Hashed(g, m, hash) <==> Hashed(f, m, hash)
    decreases |m|
  {
    if l != [] && l[0] == m[0] && |m| > 1 {
      AppendKeeps(f[m[0]].kids, l[1..], c, m[1..]);
    }
  }

  lemma {:induction false} AppendPlaces(f: seq<Cmd>, l: Loc, c: Cmd)
    requires l == [] || IsLoc(f, l)
    ensures var g, n := AppendAt(f, l, c), NewLoc(f, l);
            && IsLoc(g, n) && CmdAt(g, n) == c && !IsLoc(f, n)
            && Models(g, n) == (if l == [] then [] else Models(f, l)) + [c.model]
            && forall hash :: Hashed(g, n, hash) <==> (l == [] || Hashed(f, l, hash)) && c.hash == Some(hash)
    decreases |l|
  {
    if l != [] {
      AppendPlaces(f[l[0]].kids, l[1..], c);
      assert ([l[0]] + NewLoc(f[l[0]].kids, l[1..]))[1..] == NewLoc(f[l[0]].kids, l[1..]);
    }
  }

  /** There are no positions besides the old ones and the new one. */
  lemma {:induction false} AppendAddsOne(f: seq<Cmd>, l: Loc, c: Cmd, m: Loc)
    requires (l == [] || IsLoc(f, l)) && c.kids == []
    requires IsLoc(AppendAt(f, l, c), m) && !IsLoc(f, m)
    ensures m == NewLoc(f, l)
    decreases |m|
  {
    if l == [] {
      assert m[0] == |f|;
      assert m == [m[0]] + m[1..];
    } else if l[0] == m[0] && |m| > 1 {
      AppendAddsOne(f[m[0]].kids, l[1..], c, m[1..]);
      assert m == [m[0]] + m[1..];
    }
  }
}

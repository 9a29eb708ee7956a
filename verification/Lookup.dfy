/** Finding the command for a line: `cli_int_locate_command`, with the changes of mode and privilege
    that keep the abbreviation cache it relies on up to date. */
module Lookup {
  import opened CStrings
  import opened CommandTypes
  import opened Modes
  import opened Abbreviations

  datatype Located =
    | Found(command: Command, firstUnmatched: nat)
    | Failed              // an error was reported: CLI_ERROR
    | Unmatched           // nothing matched at this level: CLI_ERROR_ARG

  // ----- What lookup should choose

  /** `c` may be chosen for `word`, its mode aside. */
  predicate Candidate(siblings: seq<Command>, c: Command, kind: CommandType, mode: int, privilege: int, word: string) {
    && c.kind == kind && c.privilege <= privilege
    && Matches(c.name, UniqueLen(siblings, c, mode, privilege), word)
  }

  /** The first candidate of a given mode among `siblings[i..]`. */
  function FirstOf(siblings: seq<Command>, i: nat, wanted: int, kind: CommandType, mode: int, privilege: int,
                   word: string): (r: Option<Command>)
    requires i <= |siblings|
    ensures r.Some? ==> r.value in siblings && r.value.mode == wanted
                        && Candidate(siblings, r.value, kind, mode, privilege, word)
    ensures r.None? ==> forall k :: i <= k < |siblings| && siblings[k].mode == wanted ==>
              !Candidate(siblings, siblings[k], kind, mode, privilege, word)
    decreases |siblings| - i
  {
    if i == |siblings| then None
    else if siblings[i].mode == wanted && Candidate(siblings, siblings[i], kind, mode, privilege, word) then
      Some(siblings[i])
    else FirstOf(siblings, i + 1, wanted, kind, mode, privilege, word)
  }

  /** A command of the current mode comes first, then, from a mode below the configuration, one of
      MODE_CONFIG, then one of MODE_ANY. */
  function Choose(siblings: seq<Command>, kind: CommandType, mode: int, privilege: int, word: string): (r: Option<Command>)
    ensures r.Some? ==> r.value in siblings && Candidate(siblings, r.value, kind, mode, privilege, word)
  {
    var current := FirstOf(siblings, 0, mode, kind, mode, privilege, word);
    var config := FirstOf(siblings, 0, MODE_CONFIG, kind, mode, privilege, word);
    if current.Some? then current
    else if mode > MODE_CONFIG && config.Some? then config
    else FirstOf(siblings, 0, MODE_ANY, kind, mode, privilege, word)
  }

  /** Choosing a command of MODE_CONFIG from another mode drops to MODE_CONFIG. */
  function Entered(c: Command, s: ModeState): ModeState {
    if c.mode == s.mode || c.mode == MODE_ANY then s else s.Set(MODE_CONFIG)
  }

  /** The command that the words from `k` on lead to, and the mode it leaves. */
  function Locate(siblings: seq<Command>, kind: CommandType, s: ModeState, privilege: int, words: seq<string>,
                  k: nat): (Located, ModeState)
    requires k < |words|
    decreases |words| - k
  {
    var choice := Choose(siblings, kind, s.mode, privilege, words[k]);
    if choice.None? then (Unmatched, s)
    else
      var c := choice.value;
      var s' := Entered(c, s);
      var here := if c.runnable then Found(c, k + 1) else Failed;
      if c.children == [] || k == |words| - 1 then (here, s')
      else
        var below := Locate(c.children, kind, s', privilege, words, k + 1);
        if below.0.Unmatched? then (here, below.1) else below
  }

  // ----- The trees that lookup is used on

  /** Commands of a kind and a mode have distinguishable names, and the commands below one that is
      tied to a mode are tied to the same mode. */
  ghost predicate WellNamed(siblings: seq<Command>) {
    && (forall c <- siblings, p <- siblings :: c != p && c.kind == p.kind && c.mode == p.mode ==> Distinguishable(c, p))
    && (forall c <- siblings, d <- c.children :: c.mode == MODE_ANY || d.mode == c.mode)
  }

  ghost predicate WellNamedBelow(c: Command)
    requires c.Tree()
    decreases c.height
  {
    WellNamed(c.children) && forall d <- c.children :: WellNamedBelow(d)
  }

  /** Candidates of one mode are one. */
  lemma OneCandidate(siblings: seq<Command>, c: Command, p: Command, kind: CommandType, mode: int, privilege: int, word: string)
    requires WellNamed(siblings) && c in siblings && p in siblings && c.mode == p.mode
    requires Candidate(siblings, c, kind, mode, privilege, word)
    requires Candidate(siblings, p, kind, mode, privilege, word)
    ensures c == p
  {
    hide Matches, UniqueLen, CaseEqual, Common;
    if Visible(c, mode, privilege) {
      Unambiguous(siblings, c, p, mode, privilege, word);
    } else {
      InvisibleNeedsFullName(siblings, c, mode, privilege, word);
      InvisibleNeedsFullName(siblings, p, mode, privilege, word);
      SameName(c.name, p.name, word);
    }
  }

  lemma SameName(s: string, t: string, word: string)
    ensures CaseEqual(s, word) && CaseEqual(t, word) ==> CaseEqual(s, t)
  {
  }

  lemma FirstIsTheOne(siblings: seq<Command>, c: Command, kind: CommandType, mode: int, privilege: int, word: string)
    requires WellNamed(siblings) && c in siblings && Candidate(siblings, c, kind, mode, privilege, word)
    ensures FirstOf(siblings, 0, c.mode, kind, mode, privilege, word) == Some(c)
  {
    hide Candidate, WellNamed;
    var first := FirstOf(siblings, 0, c.mode, kind, mode, privilege, word);
    if first.Some? {
      OneCandidate(siblings, c, first.value, kind, mode, privilege, word);
    }
  }

  /** `target` is reached from `group` by going down through the commands of `trail`. */
  ghost predicate IsTrail(group: seq<Command>, trail: seq<Command>, target: seq<Command>)
    decreases |trail|
  {
    if trail == [] then target == group
    else trail[0] in group && IsTrail(trail[0].children, trail[1..], target)
  }

  lemma {:induction false} TrailGrows(group: seq<Command>, trail: seq<Command>, target: seq<Command>, c: Command)
    requires IsTrail(group, trail, target) && c in target
    ensures IsTrail(group, trail + [c], c.children)
    decreases |trail|
  {
    if trail == [] {
      assert ([] + [c])[1..] == [];
    } else {
      assert (trail + [c])[1..] == trail[1..] + [c];
      TrailGrows(trail[0].children, trail[1..], target, c);
    }
  }

  /** Along a trail of visible commands the cache is right. */
  lemma {:induction false} FreshAlong(group: seq<Command>, trail: seq<Command>, target: seq<Command>,
                                      mode: int, privilege: int)
    requires Forest(group) && Fresh(group, mode, privilege) && IsTrail(group, trail, target)
    requires WellNamed(group) && forall c <- group :: WellNamedBelow(c)
    requires forall c <- trail :: Visible(c, mode, privilege)
    ensures Forest(target) && WellNamed(target) && Fresh(target, mode, privilege)
    decreases |trail|
  {
    if trail != [] {
      var c := trail[0];
      assert c in group && c in trail && Settled(group, c, mode, privilege);
      assert forall d <- trail[1..] :: d in trail;
      FreshAlong(c.children, trail[1..], target, mode, privilege);
    }
  }

  /** Above a command of MODE_CONFIG, what is visible from another mode is of MODE_ANY. */
  lemma {:induction false} TrailToConfig(group: seq<Command>, trail: seq<Command>, target: seq<Command>, c: Command,
                                         mode: int, privilege: int)
    requires Forest(group) && IsTrail(group, trail, target) && c in target && c.mode == MODE_CONFIG
    requires WellNamed(group) && forall d <- group :: WellNamedBelow(d)
    requires mode != MODE_CONFIG && forall d <- trail :: Visible(d, mode, privilege)
    ensures forall d <- trail :: d.mode == MODE_ANY
    decreases |trail|
  {
    if trail != [] {
      var t := trail[0];
      assert t in group && t in trail && forall d <- trail[1..] :: d in trail;
      TrailToConfig(t.children, trail[1..], target, c, mode, privilege);
      if |trail| > 1 {
        assert trail[1..][0] in t.children && trail[1..][0].mode == MODE_ANY;
      } else {
        assert c in t.children;
      }
    }
  }

  lemma NotSeenBefore(siblings: seq<Command>, i: nat)
    requires Forest(siblings) && i < |siblings|
    ensures siblings[i] !in siblings[..i]
    ensures siblings[..i + 1] == siblings[..i] + [siblings[i]]
  {
    assert forall c <- siblings :: c in c.family;
    forall k | 0 <= k < i
      ensures siblings[k] != siblings[i]
    {
      assert siblings[k].family !! siblings[i].family;
      assert siblings[k] in siblings && siblings[i] in siblings;
    }
  }

  class Cli {
    const terminal: Terminal
    const commands: seq<Command>
    ghost const height: nat
    var privilege: int

    /** The tree is sound and every cached length that lookup can reach is right. */
    ghost predicate Valid()
      reads this, terminal, Below(commands)
    {
      && Forest(commands) && (forall c <- commands :: c.height <= height)
      && Fresh(commands, terminal.mode, privilege)
    }

    /** The end of `cli_init`, after the built-in commands have been registered. */
    constructor (terminal: Terminal, commands: seq<Command>, privilege: int, ghost height: nat)
      requires Forest(commands) && forall c <- commands :: c.height <= height
      modifies Below(commands)
      ensures Valid() && this.terminal == terminal && this.commands == commands && this.privilege == privilege
    {
      this.terminal, this.commands, this.privilege, this.height := terminal, commands, privilege, height;
      new;
      BuildShortest(commands, terminal.mode, privilege, height);
    }

    /** `cli_set_configmode`: the cache is rebuilt only when the mode changes. */
    method SetConfigmode(mode: int)
      requires Valid()
      modifies terminal, Below(commands)
      ensures Valid() && terminal.State() == old(terminal.State()).Set(mode)
    {
      var old_ := terminal.mode;
      terminal.SetConfigmode(mode);
      if mode != old_ {
        BuildShortest(commands, mode, privilege, height);
      }
    }

    /** `cli_set_privilege` */
    method SetPrivilege(privilege: int) returns (previous: int)
      requires Valid()
      modifies this, Below(commands)
      ensures Valid() && this.privilege == privilege && previous == old(this.privilege)
    {
      previous := this.privilege;
      this.privilege := privilege;
      if privilege != previous {
        BuildShortest(commands, terminal.mode, privilege, height);
      }
    }

    /** The loop over one level of `cli_int_locate_command`, up to the jump back into it. */
    method ScanLevel(siblings: seq<Command>, kind: CommandType, word: string) returns (r: Option<Command>)
      requires Forest(siblings) && WellNamed(siblings) && Fresh(siblings, terminal.mode, privilege)
      ensures r == Choose(siblings, kind, terminal.mode, privilege, word)
    {
      hide WellNamed, UniqueLen, Matches, FirstOf;
      var againConfig, againAny: Option<Command> := None, None;
      for i := 0 to |siblings|
        invariant forall k :: 0 <= k < i ==> siblings[k].mode == terminal.mode ==>
                    !Candidate(siblings, siblings[k], kind, terminal.mode, privilege, word)
        invariant Remembered(siblings, i, againConfig, MODE_CONFIG, kind, word)
        invariant terminal.mode <= MODE_CONFIG ==> againConfig.None?
        invariant Remembered(siblings, i, againAny, MODE_ANY, kind, word)
      {
        var c := siblings[i];
        assert c in siblings && Settled(siblings, c, terminal.mode, privilege);
        if c.kind != kind || privilege < c.privilege || !Matches(c.name, c.uniqueLen, word) {
          continue;
        }
        FirstIsTheOne(siblings, c, kind, terminal.mode, privilege, word);
        NotSeenBefore(siblings, i);
        if c.mode == terminal.mode || (c.mode == MODE_ANY && againAny.Some?) {
          return Some(c);
        } else if terminal.mode > MODE_CONFIG && c.mode == MODE_CONFIG {
          againConfig := Some(c);
        } else if c.mode == MODE_ANY {
          againAny := Some(c);
        }
      }
      return if againConfig.Some? then againConfig else againAny;
    }

    /** What a level remembers after `i` siblings: a candidate of that mode, if there is one. */
    ghost predicate Remembered(siblings: seq<Command>, i: nat, again: Option<Command>, wanted: int, kind: CommandType, word: string)
      reads this, terminal
      requires i <= |siblings|
    {
      if terminal.mode == wanted || (wanted == MODE_CONFIG && terminal.mode < wanted) then again.None?
      else if again.Some? then
        again.value in siblings[..i] && FirstOf(siblings, 0, wanted, kind, terminal.mode, privilege, word) == again
      else forall k :: 0 <= k < i ==> siblings[k].mode == wanted ==>
             !Candidate(siblings, siblings[k], kind, terminal.mode, privilege, word)
    }

    method LocateCommand(siblings: seq<Command>, kind: CommandType, startWord: nat, words: seq<string>,
                         ghost trail: seq<Command>) returns (r: Located)
      requires Valid() && startWord < |words|
      requires WellNamed(commands) && forall c <- commands :: WellNamedBelow(c)
      requires IsTrail(commands, trail, siblings)
      requires forall c <- trail :: Visible(c, terminal.mode, privilege)
      modifies terminal, Below(commands)
      ensures Valid()
      ensures (r, terminal.State()) == Locate(siblings, kind, old(terminal.State()), privilege, words, startWord)
      decreases |words| - startWord
    {
      hide WellNamed, WellNamedBelow, Forest, Fresh, Choose, IsTrail, Candidate;
      FreshAlong(commands, trail, siblings, terminal.mode, privilege);
      var choice := ScanLevel(siblings, kind, words[startWord]);
      if choice.None? {
        return Unmatched;
      }
      var c := choice.value;
      ghost var deeper := trail + [c];
      TrailGrows(commands, trail, siblings, c);
      ChosenMode(siblings, kind, terminal.mode, privilege, words[startWord]);
      if c.mode != terminal.mode && c.mode != MODE_ANY {
        TrailToConfig(commands, trail, siblings, c, terminal.mode, privilege);
        SetConfigmode(MODE_CONFIG);
      }
      if c.children == [] || startWord == |words| - 1 {
        return if c.runnable then Found(c, startWord + 1) else Failed;
      }
      r := LocateCommand(c.children, kind, startWord + 1, words, deeper);
      if r.Unmatched? {
        r := if c.runnable then Found(c, startWord + 1) else Failed;
      }
    }
  }

  /** A chosen command is of the kind and within the privilege, the word is an abbreviation of its
      name that is long enough or the whole of it, and it belongs to the current mode, to MODE_ANY, or
      to MODE_CONFIG seen from below. */
  lemma ChosenMode(siblings: seq<Command>, kind: CommandType, mode: int, privilege: int, word: string)
    ensures var r := Choose(siblings, kind, mode, privilege, word);
            r.Some? ==>
              var c := r.value;
              && c in siblings && c.kind == kind && c.privilege <= privilege
              && CasePrefix(word, c.name)
              && (|word| == |c.name| || |word| >= UniqueLen(siblings, c, mode, privilege))
              && (c.mode in {mode, MODE_ANY} || (mode > MODE_CONFIG && c.mode == MODE_CONFIG))
  {
    hide Matches, UniqueLen, CasePrefix;
    var r := Choose(siblings, kind, mode, privilege, word);
    if r.Some? {
      MatchesExactly(r.value.name, UniqueLen(siblings, r.value, mode, privilege), word);
    }
  }

  /** Any command of the kind and within the privilege whose name the word abbreviates at sufficient
      length, or spells in full, is chosen unless there is one of a preferred mode. */
  lemma LookupPrefers(siblings: seq<Command>, c: Command, kind: CommandType, mode: int, privilege: int, word: string)
    requires WellNamed(siblings) && c in siblings && c.kind == kind && c.privilege <= privilege
    requires CasePrefix(word, c.name)
    requires |word| == |c.name| || |word| >= UniqueLen(siblings, c, mode, privilege)
    ensures var r := Choose(siblings, kind, mode, privilege, word);
            && (c.mode == mode ==> r == Some(c))
            && (mode > MODE_CONFIG && c.mode == MODE_CONFIG ==> r == Some(c) || (r.Some? && r.value.mode == mode))
            && (c.mode == MODE_ANY ==>
                  r == Some(c)
                  || (r.Some? && (r.value.mode == mode || (mode > MODE_CONFIG && r.value.mode == MODE_CONFIG))))
  {
    MatchesExactly(c.name, UniqueLen(siblings, c, mode, privilege), word);
    hide WellNamed, Matches, UniqueLen, CasePrefix;
    FirstIsTheOne(siblings, c, kind, mode, privilege, word);
  }

  // ----- What lookup does to the mode, and what it finds

  /** Lookup changes the mode only by dropping from a mode below the configuration to MODE_CONFIG,
      and then the mode stack is gone; when nothing matches, nothing changes. */
  lemma {:induction false} LookupOnlyDrops(siblings: seq<Command>, kind: CommandType, s: ModeState, privilege: int,
                                           words: seq<string>, k: nat)
    requires k < |words|
    ensures var (r, t) := Locate(siblings, kind, s, privilege, words, k);
            && (t == s || (s.mode > MODE_CONFIG && t == ModeState(MODE_CONFIG, [])))
            && (r.Unmatched? ==> t == s)
    decreases |words| - k
  {
    hide Choose;
    var choice := Choose(siblings, kind, s.mode, privilege, words[k]);
    ChosenMode(siblings, kind, s.mode, privilege, words[k]);
    if choice.Some? && choice.value.children != [] && k < |words| - 1 {
      LookupOnlyDrops(choice.value.children, kind, Entered(choice.value, s), privilege, words, k + 1);
    }
  }

  /** `path` leads from `siblings` to a runnable command, matching one word after the other. */
  ghost predicate Path(siblings: seq<Command>, kind: CommandType, privilege: int, words: seq<string>, k: nat, path: seq<Command>)
    decreases |path|
  {
    && path != [] && k < |words|
    && path[0] in siblings && path[0].kind == kind && path[0].privilege <= privilege
    && CasePrefix(words[k], path[0].name)
    && if |path| == 1 then path[0].runnable
       else Path(path[0].children, kind, privilege, words, k + 1, path[1..])
  }

  /** How a command is found: here, or below the command that this level chooses. */
  lemma FoundHere(siblings: seq<Command>, kind: CommandType, s: ModeState, privilege: int, words: seq<string>, k: nat)
    requires k < |words| && Locate(siblings, kind, s, privilege, words, k).0.Found?
    ensures var choice := Choose(siblings, kind, s.mode, privilege, words[k]);
            var r := Locate(siblings, kind, s, privilege, words, k).0;
            && choice.Some?
            && var c := choice.value;
              && c in siblings && c.kind == kind && c.privilege <= privilege && CasePrefix(words[k], c.name)
              && ((c.runnable && r == Found(c, k + 1))
                  || (k + 1 < |words| && r == Locate(c.children, kind, Entered(c, s), privilege, words, k + 1).0))
  {
    hide Choose, CasePrefix, UniqueLen;
  }

  /** What is found is a runnable command at the end of a path whose names the words abbreviate, and
      the unmatched words start right after them. */
  lemma {:induction false} FoundByPath(siblings: seq<Command>, kind: CommandType, s: ModeState, privilege: int,
                                       words: seq<string>, k: nat)
    returns (path: seq<Command>)
    requires k < |words| && Locate(siblings, kind, s, privilege, words, k).0.Found?
    ensures var r := Locate(siblings, kind, s, privilege, words, k).0;
            && Path(siblings, kind, privilege, words, k, path)
            && path[|path| - 1] == r.command && r.firstUnmatched == k + |path| <= |words|
    decreases |words| - k
  {
    hide Choose, CasePrefix, Locate, Path;
    FoundHere(siblings, kind, s, privilege, words, k);
    var c := Choose(siblings, kind, s.mode, privilege, words[k]).value;
    if c.runnable && Locate(siblings, kind, s, privilege, words, k).0 == Found(c, k + 1) {
      path := [c];
      PathOfOne(siblings, kind, privilege, words, k, c);
    } else {
      var rest := FoundByPath(c.children, kind, Entered(c, s), privilege, words, k + 1);
      path := [c] + rest;
      PathGrows(siblings, kind, privilege, words, k, c, rest);
    }
  }

  lemma PathGrows(siblings: seq<Command>, kind: CommandType, privilege: int, words: seq<string>, k: nat, c: Command,
                  rest: seq<Command>)
    requires k + 1 < |words| && c in siblings && c.kind == kind && c.privilege <= privilege
    requires CasePrefix(words[k], c.name) && Path(c.children, kind, privilege, words, k + 1, rest)
    ensures rest != [] && Path(siblings, kind, privilege, words, k, [c] + rest)
    ensures ([c] + rest)[|rest|] == rest[|rest| - 1]
  {
    hide CasePrefix;
    assert ([c] + rest)[1..] == rest;
  }

  lemma PathOfOne(siblings: seq<Command>, kind: CommandType, privilege: int, words: seq<string>, k: nat, c: Command)
    requires k < |words| && c in siblings && c.kind == kind && c.privilege <= privilege && c.runnable
    requires CasePrefix(words[k], c.name)
    ensures Path(siblings, kind, privilege, words, k, [c])
  {
    hide CasePrefix;
  }

  // ----- The answer, from the chain of choices

  /** The mode in which the command after `chain` is chosen: once a command of MODE_CONFIG has been
      chosen from a mode above it, that is MODE_CONFIG. */
  predicate Drops(chain: seq<Command>, s: ModeState) {
    s.mode > MODE_CONFIG && exists c <- chain :: c.mode == MODE_CONFIG
  }

  function ModeAfter(chain: seq<Command>, s: ModeState): int {
    if Drops(chain, s) then MODE_CONFIG else s.mode
  }

  /** The commands below a chain. */
  function Group(siblings: seq<Command>, chain: seq<Command>): seq<Command> {
    if chain == [] then siblings else chain[|chain| - 1].children
  }

  /** What is chosen after a chain, for the word that comes next. */
  function NextChoice(siblings: seq<Command>, kind: CommandType, s: ModeState, privilege: int, words: seq<string>,
                      k: nat, chain: seq<Command>): Option<Command>
    requires k + |chain| < |words|
  {
    Choose(Group(siblings, chain), kind, ModeAfter(chain, s), privilege, words[k + |chain|])
  }

  /** Each command is what is chosen after those before it. */
  predicate IsChain(siblings: seq<Command>, kind: CommandType, s: ModeState, privilege: int, words: seq<string>,
                    k: nat, chain: seq<Command>)
  {
    && k + |chain| <= |words|
    && forall i :: 0 <= i < |chain| ==>
         NextChoice(siblings, kind, s, privilege, words, k, chain[..i]) == Some(chain[i])
  }

  /** The chain ends: the words are used up, there is nothing below, or nothing below matches. */
  predicate IsLast(siblings: seq<Command>, kind: CommandType, s: ModeState, privilege: int, words: seq<string>,
                   k: nat, chain: seq<Command>)
  {
    || k + |chain| >= |words|
    || Group(siblings, chain) == []
    || NextChoice(siblings, kind, s, privilege, words, k, chain).None?
  }

  /** The deepest command of the chain of choices decides: it is found when it is runnable, and a
      failure when it is not; nothing matches exactly when the first level has no choice. The mode
      drops exactly when the chain goes through MODE_CONFIG from above it. */
  lemma {:induction false} DeepestDecides(siblings: seq<Command>, kind: CommandType, s: ModeState, privilege: int,
                                          words: seq<string>, k: nat)
    returns (chain: seq<Command>)
    requires k < |words|
    ensures IsChain(siblings, kind, s, privilege, words, k, chain)
    ensures IsLast(siblings, kind, s, privilege, words, k, chain)
    ensures var (r, t) := Locate(siblings, kind, s, privilege, words, k);
            && (r.Unmatched? <==> chain == [])
            && (chain != [] ==>
                  r == if chain[|chain| - 1].runnable then Found(chain[|chain| - 1], k + |chain|) else Failed)
            && t == if Drops(chain, s) then ModeState(MODE_CONFIG, []) else s
    decreases |words| - k
  {
    hide Choose, IsChain, IsLast, ModeAfter;
    var choice := Choose(siblings, kind, s.mode, privilege, words[k]);
    if choice.None? {
      NoChain(siblings, kind, s, privilege, words, k);
      return [];
    }
    var c := choice.value;
    ChosenMode(siblings, kind, s.mode, privilege, words[k]);
    if c.children == [] || k == |words| - 1 {
      DropsFirst(c, [], s);
      assert [c] + [] == [c];
      ChainOfOne(siblings, kind, s, privilege, words, k, c);
      return [c];
    }
    var rest := DeepestDecides(c.children, kind, Entered(c, s), privilege, words, k + 1);
    chain := [c] + rest;
    DropsFirst(c, rest, s);
    ChainGrows(siblings, kind, s, privilege, words, k, c, rest);
  }

  lemma NoChain(siblings: seq<Command>, kind: CommandType, s: ModeState, privilege: int, words: seq<string>, k: nat)
    requires k < |words|
    ensures IsChain(siblings, kind, s, privilege, words, k, [])
    ensures NextChoice(siblings, kind, s, privilege, words, k, []) == Choose(siblings, kind, s.mode, privilege, words[k])
    ensures Choose(siblings, kind, s.mode, privilege, words[k]).None? ==>
              IsLast(siblings, kind, s, privilege, words, k, [])
  {
    hide Choose;
  }

  lemma ChainOfOne(siblings: seq<Command>, kind: CommandType, s: ModeState, privilege: int, words: seq<string>,
                   k: nat, c: Command)
    requires k < |words| && Choose(siblings, kind, s.mode, privilege, words[k]) == Some(c)
    requires c.children == [] || k == |words| - 1
    ensures IsChain(siblings, kind, s, privilege, words, k, [c])
    ensures IsLast(siblings, kind, s, privilege, words, k, [c])
  {
    hide Choose, ModeAfter;
    NoChain(siblings, kind, s, privilege, words, k);
    assert [c][..0] == [];
  }

  lemma DropsFirst(c: Command, rest: seq<Command>, s: ModeState)
    requires c.mode in {s.mode, MODE_ANY} || (s.mode > MODE_CONFIG && c.mode == MODE_CONFIG)
    ensures ModeAfter([c] + rest, s) == ModeAfter(rest, Entered(c, s))
    ensures (if Drops([c] + rest, s) then ModeState(MODE_CONFIG, []) else s)
         == (if Drops(rest, Entered(c, s)) then ModeState(MODE_CONFIG, []) else Entered(c, s))
  {
    var all := [c] + rest;
    assert all[0] == c && c in all && forall d <- rest :: d in all;
    assert forall d <- all :: d == c || d in rest;
  }

  /** What is chosen after a longer chain is what is chosen after its rest from the next level on. */
  lemma NextShifts(siblings: seq<Command>, kind: CommandType, s: ModeState, privilege: int, words: seq<string>,
                   k: nat, c: Command, rest: seq<Command>)
    requires k + |rest| + 1 < |words| && Choose(siblings, kind, s.mode, privilege, words[k]) == Some(c)
    ensures NextChoice(siblings, kind, s, privilege, words, k, [c] + rest)
         == NextChoice(c.children, kind, Entered(c, s), privilege, words, k + 1, rest)
  {
    hide Choose, ModeAfter, Entered, CasePrefix, UniqueLen;
    ChosenMode(siblings, kind, s.mode, privilege, words[k]);
    DropsFirst(c, rest, s);
    assert |[c] + rest| == 1 + |rest| && k + (1 + |rest|) == k + 1 + |rest|;
    assert Group(siblings, [c] + rest) == Group(c.children, rest);
  }

  lemma ChainGrows(siblings: seq<Command>, kind: CommandType, s: ModeState, privilege: int, words: seq<string>,
                   k: nat, c: Command, rest: seq<Command>)
    requires k < |words| && Choose(siblings, kind, s.mode, privilege, words[k]) == Some(c)
    requires IsChain(c.children, kind, Entered(c, s), privilege, words, k + 1, rest)
    requires IsLast(c.children, kind, Entered(c, s), privilege, words, k + 1, rest)
    ensures IsChain(siblings, kind, s, privilege, words, k, [c] + rest)
    ensures IsLast(siblings, kind, s, privilege, words, k, [c] + rest)
  {
    hide Choose, NextChoice, Entered;
    var all := [c] + rest;
    NoChain(siblings, kind, s, privilege, words, k);
    forall i | 0 <= i < |all|
      ensures NextChoice(siblings, kind, s, privilege, words, k, all[..i]) == Some(all[i])
    {
      if i == 0 {
        assert all[..0] == [];
      } else {
        assert all[..i] == [c] + rest[..i - 1];
        NextShifts(siblings, kind, s, privilege, words, k, c, rest[..i - 1]);
      }
    }
    if k + |all| < |words| {
      NextShifts(siblings, kind, s, privilege, words, k, c, rest);
    }
  }
}

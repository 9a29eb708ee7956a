/** The cached abbreviation lengths of commands: `cli_build_shortest` and what it means for a word
    to match a command. */
module Abbreviations {
  import opened CStrings
  import opened CommandTypes
  import opened Modes

  /** A registered command. Only the cached `uniqueLen` changes after registration. */
  class Command {
    const name: string
    const kind: CommandType
    const mode: int
    const privilege: int
    const runnable: bool
    const children: seq<Command>
    var uniqueLen: nat
    ghost const family: set<Command>
    ghost const height: nat

    /** A command as it is after registration, with a cache that has not been built. */
    constructor (name: string, kind: CommandType, mode: int, privilege: int, runnable: bool, children: seq<Command>,
                 ghost height: nat)
      requires NulFree(name) && Apart(children)
      requires forall c <- children :: c.Tree() && c.height < height
      ensures this.name == name && this.kind == kind && this.mode == mode && this.privilege == privilege
      ensures this.runnable == runnable && this.children == children && uniqueLen == 0
      ensures Tree() && family == {this} + Below(children)
    {
      this.name, this.kind, this.mode, this.privilege := name, kind, mode, privilege;
      this.runnable, this.children, this.uniqueLen := runnable, children, 0;
      this.family, this.height := {this} + Below(children), height;
    }

    /** `family` holds this command and everything below it, each just once. */
    ghost predicate Tree()
      decreases height
    {
      && NulFree(name)
      && this in family
      && (forall c <- children :: c.height < height && c.Tree())
      && (forall c <- children :: c.family <= family && this !in c.family)
      && Apart(children)
    }
  }

  ghost predicate Apart(siblings: seq<Command>) {
    forall i, j :: 0 <= i < j < |siblings| ==> siblings[i].family !! siblings[j].family
  }

  predicate Visible(c: Command, mode: int, privilege: int) {
    (c.mode == MODE_ANY || c.mode == mode) && c.privilege <= privilege
  }

  predicate Rival(c: Command, p: Command, mode: int, privilege: int) {
    c != p && c.kind == p.kind && Visible(p, mode, privilege)
  }

  /** The length of the longest common prefix. */
  function Common(s: string, t: string): (n: nat)
    ensures n <= |s| && n <= |t| && s[..n] == t[..n]
    ensures n < |s| && n < |t| ==> s[n] != t[n]
  {
    if s == "" || t == "" || s[0] != t[0] then 0
    else
      assert s == [s[0]] + s[1..] && t == [t[0]] + t[1..];
      1 + Common(s[1..], t[1..])
  }

  method CommonLen(cp: string, pp: string) returns (len: nat)
    requires NulFree(cp) && NulFree(pp)
    ensures len == 1 + Common(cp, pp)
  {
    len := 1;
    var i: nat := 0;
    while At(cp, i) != NUL && At(pp, i) != NUL && cp[i] == pp[i]
      invariant i <= |cp| && i <= |pp| && len == 1 + i
      invariant Common(cp, pp) == i + Common(cp[i..], pp[i..])
      decreases |cp| - i
    {
      len := len + 1;
      i := i + 1;
    }
  }

  function Max(a: nat, b: nat): nat {
    if a > b then a else b
  }

  /** One more than the longest prefix that `c` shares with a visible rival among `siblings`. */
  function Longest(siblings: seq<Command>, c: Command, mode: int, privilege: int): nat {
    if siblings == [] then 1
    else
      var p := siblings[|siblings| - 1];
      var before := Longest(siblings[..|siblings| - 1], c, mode, privilege);
      if Rival(c, p, mode, privilege) then Max(1 + Common(c.name, p.name), before) else before
  }

  /** The value that the cache should hold for `c`. */
  function UniqueLen(siblings: seq<Command>, c: Command, mode: int, privilege: int): nat {
    if Visible(c, mode, privilege) then Longest(siblings, c, mode, privilege) else |c.name|
  }

  // ----- Trees of commands

  /** The siblings and all commands below them, none of which occurs twice. */
  ghost predicate Forest(siblings: seq<Command>) {
    (forall c <- siblings :: c.Tree()) && Apart(siblings)
  }

  ghost function Below(siblings: seq<Command>): set<Command> {
    set c, x | c in siblings && x in c.family :: x
  }

  /** The cache is right for `c` and for every command below it that lookup can reach. */
  ghost predicate Settled(siblings: seq<Command>, c: Command, mode: int, privilege: int)
    requires c.Tree()
    reads c.family
    decreases c.height
  {
    && c.uniqueLen == UniqueLen(siblings, c, mode, privilege)
    && (Visible(c, mode, privilege) ==> forall d <- c.children :: Settled(c.children, d, mode, privilege))
  }

  /** The cache is right for every command that lookup can reach through visible ones. */
  ghost predicate Fresh(siblings: seq<Command>, mode: int, privilege: int)
    requires Forest(siblings)
    reads Below(siblings)
  {
    forall c <- siblings :: Settled(siblings, c, mode, privilege)
  }

  /** The inner loop of `cli_build_shortest`. */
  method Shorten(siblings: seq<Command>, c: Command, mode: int, privilege: int)
    requires NulFree(c.name) && forall p <- siblings :: NulFree(p.name)
    modifies c
    ensures c.uniqueLen == UniqueLen(siblings, c, mode, privilege)
  {
    c.uniqueLen := |c.name|;
    if !Visible(c, mode, privilege) {
      return;
    }
    c.uniqueLen := 1;
    for j := 0 to |siblings|
      invariant c.uniqueLen == Longest(siblings[..j], c, mode, privilege)
    {
      var p := siblings[j];
      assert siblings[..j + 1][..j] == siblings[..j];
      if Rival(c, p, mode, privilege) {
        var len := CommonLen(c.name, p.name);
        if len > c.uniqueLen {
          c.uniqueLen := len;
        }
      }
    }
    assert siblings[..|siblings|] == siblings;
  }

  method BuildShortest(siblings: seq<Command>, mode: int, privilege: int, ghost height: nat)
    requires Forest(siblings) && forall c <- siblings :: c.height <= height
    modifies Below(siblings)
    ensures Fresh(siblings, mode, privilege)
    decreases height, 1
  {
    for i := 0 to |siblings|
      invariant forall k :: 0 <= k < i ==> Settled(siblings, siblings[k], mode, privilege)
    {
      var c := siblings[i];
      assert c in siblings;
      BuildOne(siblings, c, mode, privilege);
    }
  }

  /** The body of the outer loop. */
  method BuildOne(siblings: seq<Command>, c: Command, mode: int, privilege: int)
    requires c.Tree() && forall p <- siblings :: p.Tree()
    modifies c.family
    ensures Settled(siblings, c, mode, privilege)
    decreases c.height, 0
  {
    Shorten(siblings, c, mode, privilege);
    if Visible(c, mode, privilege) {
      if c.children != [] {
        assert c.children[0] in c.children;
        BuildShortest(c.children, mode, privilege, c.height - 1);
      }
    }
  }

  // ----- What a word matches

  /** `strncasecmp(s, t, n) == 0` */
  predicate CaseEqualUpTo(s: string, t: string, n: nat) {
    CaseEqual(if n < |s| then s[..n] else s, if n < |t| then t[..n] else t)
  }

  /** The two comparisons that lookup makes between a word and a command. */
  predicate Matches(name: string, uniqueLen: nat, word: string) {
    CaseEqualUpTo(name, word, uniqueLen) && CasePrefix(word, name)
  }

  /** A word matches when it abbreviates the name and is long enough, or is the whole name. */
  lemma MatchesExactly(name: string, uniqueLen: nat, word: string)
    ensures Matches(name, uniqueLen, word)
       <==> CasePrefix(word, name) && (|word| >= uniqueLen || |word| == |name|)
  {
    if CasePrefix(word, name) {
      var n := uniqueLen;
      assert forall i :: 0 <= i < |word| ==> Lower(word)[i] == Lower(name)[i];
      if |word| >= n {
        assert n < |word| ==> Lower(word[..n]) == Lower(word)[..n];
        assert n < |name| ==> Lower(name[..n]) == Lower(name)[..n];
      } else if |word| == |name| {
        assert Lower(word) == Lower(name);
      }
    }
  }

  lemma {:induction false} LongestBounds(siblings: seq<Command>, c: Command, mode: int, privilege: int)
    ensures Longest(siblings, c, mode, privilege) >= 1
    ensures forall p <- siblings :: Rival(c, p, mode, privilege) ==>
              Common(c.name, p.name) < Longest(siblings, c, mode, privilege)
    ensures Longest(siblings, c, mode, privilege) > 1 ==>
              exists p <- siblings :: Rival(c, p, mode, privilege)
                && Common(c.name, p.name) + 1 == Longest(siblings, c, mode, privilege)
  {
    hide Rival, Common;
    if siblings != [] {
      var last := siblings[|siblings| - 1];
      assert last in siblings && siblings == siblings[..|siblings| - 1] + [last];
      LongestBounds(siblings[..|siblings| - 1], c, mode, privilege);
    }
  }

  /** Prefixes of both names are at most as long as what the names have in common. */
  lemma CommonPrefix(s: string, t: string, n: nat)
    requires n <= |s| && n <= |t|
    ensures s[..n] == t[..n] <==> n <= Common(s, t)
  {
    var k := Common(s, t);
    if n <= k {
      assert s[..n] == s[..k][..n] == t[..k][..n] == t[..n];
    } else {
      assert s[..n][k] == s[k] && t[..n][k] == t[k];
    }
  }

  /** Minimal and sufficient: exactly the prefixes from `uniqueLen` on are shared with no other
      sibling of the type that belongs to the mode, or to all, and is within the privilege. */
  lemma UniqueLenIsExact(siblings: seq<Command>, c: Command, mode: int, privilege: int, n: nat)
    requires (c.mode == MODE_ANY || c.mode == mode) && c.privilege <= privilege
    requires 1 <= n <= |c.name|
    ensures n >= UniqueLen(siblings, c, mode, privilege)
       <==> forall p <- siblings ::
              p != c && p.kind == c.kind && (p.mode == MODE_ANY || p.mode == mode) && p.privilege <= privilege ==>
                !(c.name[..n] <= p.name)
  {
    hide Common, Longest;
    LongestBounds(siblings, c, mode, privilege);
    forall p | p in siblings
      ensures c.name[..n] <= p.name <==> n <= Common(c.name, p.name)
    {
      if n <= |p.name| {
        CommonPrefix(c.name, p.name, n);
      }
    }
  }

  /** A command of another mode or beyond the privilege needs its whole name. */
  lemma HiddenLength(siblings: seq<Command>, c: Command, mode: int, privilege: int)
    requires !(c.mode == MODE_ANY || c.mode == mode) || c.privilege > privilege
    ensures UniqueLen(siblings, c, mode, privilege) == |c.name|
  {
  }

  /** Names that differ ignoring case, and whose case agrees as far as their letters do. */
  predicate Distinguishable(c: Command, p: Command) {
    !CaseEqual(c.name, p.name) && Common(Lower(c.name), Lower(p.name)) == Common(c.name, p.name)
  }

  /** All visible siblings of a kind are distinguishable. */
  ghost predicate CaseConsistent(siblings: seq<Command>, mode: int, privilege: int) {
    forall c <- siblings, p <- siblings :: Visible(c, mode, privilege) && Rival(c, p, mode, privilege) ==>
      Distinguishable(c, p)
  }

  /** Distinct lower-case names are case consistent. */
  lemma LowerCaseConsistent(siblings: seq<Command>, mode: int, privilege: int)
    requires forall c <- siblings :: Lower(c.name) == c.name
    requires forall c <- siblings, p <- siblings ::
               Visible(c, mode, privilege) && Rival(c, p, mode, privilege) ==> c.name != p.name
    ensures CaseConsistent(siblings, mode, privilege)
  {
  }

  /** The longest word that abbreviates both names is what they have in common, case ignored. */
  lemma SharedWord(s: string, t: string, word: string)
    requires CasePrefix(word, s) && CasePrefix(word, t)
    ensures |word| <= Common(Lower(s), Lower(t))
  {
    assert Lower(s)[..|word|] == Lower(word) == Lower(t)[..|word|];
    CommonPrefix(Lower(s), Lower(t), |word|);
  }

  /** Two commands clash when what their names have in common is enough for both. */
  predicate Clash(c: Command, p: Command, cLen: nat, pLen: nat) {
    var n := Common(Lower(c.name), Lower(p.name));
    (n >= cLen || n == |c.name|) && (n >= pLen || n == |p.name|)
  }

  /** Some word matches two commands exactly when they clash. */
  lemma AmbiguousExactly(c: Command, p: Command, cLen: nat, pLen: nat)
    ensures Clash(c, p, cLen, pLen)
       <==> exists word :: Matches(c.name, cLen, word) && Matches(p.name, pLen, word)
  {
    hide Matches;
    var n := Common(Lower(c.name), Lower(p.name));
    if Clash(c, p, cLen, pLen) {
      var word := c.name[..n];
      assert Lower(word) == Lower(c.name)[..n] == Lower(p.name)[..n];
      MatchesExactly(c.name, cLen, word);
      MatchesExactly(p.name, pLen, word);
    }
    forall word | Matches(c.name, cLen, word) && Matches(p.name, pLen, word)
      ensures Clash(c, p, cLen, pLen)
    {
      MatchesExactly(c.name, cLen, word);
      MatchesExactly(p.name, pLen, word);
      SharedWord(c.name, p.name, word);
    }
  }

  /** Abbreviations are unambiguous: with the cache as it is built, a word matches at most one
      visible command of a kind. */
  lemma Unambiguous(siblings: seq<Command>, c: Command, p: Command, mode: int, privilege: int, word: string)
    requires c in siblings && p in siblings && c.kind == p.kind
    requires c != p ==> Distinguishable(c, p)
    requires Visible(c, mode, privilege) && Visible(p, mode, privilege)
    requires Matches(c.name, UniqueLen(siblings, c, mode, privilege), word)
    requires Matches(p.name, UniqueLen(siblings, p, mode, privilege), word)
    ensures c == p
  {
    hide Common, Longest, Visible, Matches;
    var cLen, pLen := UniqueLen(siblings, c, mode, privilege), UniqueLen(siblings, p, mode, privilege);
    if c != p {
      AmbiguousExactly(c, p, cLen, pLen);
      LongestBounds(siblings, c, mode, privilege);
      LongestBounds(siblings, p, mode, privilege);
      var n := Common(Lower(c.name), Lower(p.name));
      CommonSymmetric(c.name, p.name);
    }
  }

  lemma {:induction false} CommonSymmetric(s: string, t: string)
    ensures Common(s, t) == Common(t, s)
  {
    if s != "" && t != "" {
      CommonSymmetric(s[1..], t[1..]);
    }
  }

  /** A full name matches its own command, and no other visible one of its kind. */
  lemma FullNameIsItsOwn(siblings: seq<Command>, c: Command, p: Command, mode: int, privilege: int)
    requires CaseConsistent(siblings, mode, privilege)
    requires c in siblings && p in siblings && c.kind == p.kind
    requires Visible(c, mode, privilege) && Visible(p, mode, privilege)
    ensures Matches(p.name, UniqueLen(siblings, p, mode, privilege), c.name) <==> c == p
  {
    hide Common, Longest, Visible, Matches, Distinguishable;
    MatchesExactly(c.name, UniqueLen(siblings, c, mode, privilege), c.name);
    if Matches(p.name, UniqueLen(siblings, p, mode, privilege), c.name) {
      Unambiguous(siblings, c, p, mode, privilege, c.name);
    }
  }

  /** A command that is not visible is matched by its full name only. */
  lemma InvisibleNeedsFullName(siblings: seq<Command>, c: Command, mode: int, privilege: int, word: string)
    requires !Visible(c, mode, privilege)
    ensures Matches(c.name, UniqueLen(siblings, c, mode, privilege), word) <==> CaseEqual(c.name, word)
  {
    MatchesExactly(c.name, |c.name|, word);
    if CaseEqual(c.name, word) {
      assert |Lower(word)| == |word| && |Lower(c.name)| == |c.name|;
    }
  }

  /** Names whose case differs where they agree otherwise are not safe: for two siblings, the case
      of one shared letter decides. */
  lemma MixedCaseIsAmbiguous(c: Command, p: Command, mode: int, privilege: int)
    requires c != p && c.kind == p.kind && Visible(c, mode, privilege) && Visible(p, mode, privilege)
    requires Common(Lower(c.name), Lower(p.name)) > Common(c.name, p.name)
    ensures exists word ::
              && Matches(c.name, UniqueLen([c, p], c, mode, privilege), word)
              && Matches(p.name, UniqueLen([c, p], p, mode, privilege), word)
  {
    hide Common, Longest, Visible, Matches;
    var cLen, pLen := UniqueLen([c, p], c, mode, privilege), UniqueLen([c, p], p, mode, privilege);
    LongestBounds([c, p], c, mode, privilege);
    LongestBounds([c, p], p, mode, privilege);
    CommonSymmetric(c.name, p.name);
    AmbiguousExactly(c, p, cLen, pLen);
  }
}

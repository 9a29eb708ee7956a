/** Leaving buildmode: `cli_int_execute_buildmode` prints the settings as a command line, which is
    then tokenised and matched again. */
module Buildmode {
  import opened CStrings
  import opened Tokeniser
  import opened Quoting
  import opened Pipeline
  import opened OptargMatch
  import opened FoundOptargs

  // ----- The command line

  /** The words printed for an optarg with these values. */
  function PrintOne(o: Optarg, values: seq<string>): seq<string> {
    if values == [] then []
    else (if OptionalFlag in o.flags || Argument in o.flags then [values[0]] else [o.name, values[0]])
         + PrintOne(o, values[1..])
  }

  /** The values of an optarg that are printed: all of them when it may be repeated. */
  function PrintedValues(o: Optarg, found: seq<Pair>): seq<string> {
    var values := Values(found, o.name, 0);
    if Multiple in o.flags || values == [] then values else values[..1]
  }

  /** A required optarg without a value stops the printing. So does a required optarg that may be
      repeated, because the search for its values ends when there is none left. */
  predicate Missing(env: Env, o: Optarg, found: seq<Pair>) {
    Visible(env, o) && Argument in o.flags && (Multiple in o.flags || Values(found, o.name, 0) == [])
  }

  /** The words printed for the optargs from `j` on. */
  function Printed(env: Env, optargs: seq<Optarg>, found: seq<Pair>, j: nat): seq<string>
    requires j <= |optargs|
    decreases |optargs| - j
  {
    if j == |optargs| then []
    else (if Visible(env, optargs[j]) then PrintOne(optargs[j], PrintedValues(optargs[j], found)) else [])
         + Printed(env, optargs, found, j + 1)
  }

  lemma {:induction false} PrintAllAppends(a: seq<string>, b: seq<string>)
    ensures PrintAll(a + b) == PrintAll(a) + PrintAll(b)
  {
    hide Quoted;
    if a == [] {
      assert a + b == b;
    } else {
      assert (a + b)[1..] == a[1..] + b;
      PrintAllAppends(a[1..], b);
    }
  }

  /** The words printed for one value. */
  function Head(o: Optarg, value: string): seq<string> {
    if OptionalFlag in o.flags || Argument in o.flags then [value] else [o.name, value]
  }

  /** How the text for an optarg starts. */
  lemma PrintOneFirst(o: Optarg, values: seq<string>)
    ensures values == [] ==> PrintAll(PrintOne(o, values)) == ""
    ensures values != [] ==>
              PrintAll(PrintOne(o, values)) == PrintAll(Head(o, values[0])) + PrintAll(PrintOne(o, values[1..]))
  {
    hide Quoted;
    if values != [] {
      PrintAllAppends(Head(o, values[0]), PrintOne(o, values[1..]));
    }
  }

  lemma PrintHead(o: Optarg, value: string)
    ensures PrintAll(Head(o, value))
         == (if |Head(o, value)| == 1 then "" else " " + Quoted(o.name)) + (" " + Quoted(value))
  {
    hide Quoted;
    assert Head(o, value)[1..] == if |Head(o, value)| == 1 then [] else [value];
    assert [value][1..] == [];
    assert PrintAll([]) == "" && (" " + Quoted(value)) + "" == " " + Quoted(value);
    assert PrintAll([value]) == " " + Quoted(value);
    assert "" + (" " + Quoted(value)) == " " + Quoted(value);
  }

  /** Printing one value of an optarg. */
  method ExtendWithValue(o: Optarg, value: string, cmdline0: string) returns (cmdline: string)
    requires NulFree(o.name) && NulFree(value)
    ensures cmdline == cmdline0 + PrintAll(Head(o, value))
  {
    hide Quoted, PrintAll;
    PrintHead(o, value);
    cmdline := cmdline0;
    if !(OptionalFlag in o.flags || Argument in o.flags) {
      cmdline := ExtendCmdline(cmdline, o.name);
    }
    cmdline := ExtendCmdline(cmdline, value);
  }

  /** The inner loop: everything printed for one visible optarg. */
  method ExtendWithOptarg(o: Optarg, found: seq<Pair>, cmdline0: string) returns (cmdline: string, status: Status)
    requires NulFree(o.name) && forall p <- found :: NulFree(p.value)
    ensures status == if Argument in o.flags && (Multiple in o.flags || Values(found, o.name, 0) == [])
                      then MissingArgument else Ok
    ensures status.Ok? ==> cmdline == cmdline0 + PrintAll(PrintOne(o, PrintedValues(o, found)))
  {
    hide CaseEqual, Values, NextValue, PrintOne, PrintAll, Head;
    cmdline, status := cmdline0, Ok;
    var from: nat := 0;
    var again := true;
    ghost var values := Values(found, o.name, 0);
    while again
      invariant from <= |found| && status.Ok?
      invariant Multiple in o.flags ==> again
      invariant Multiple in o.flags ==>
                  cmdline + PrintAll(PrintOne(o, Values(found, o.name, from))) == cmdline0 + PrintAll(PrintOne(o, values))
      invariant Multiple !in o.flags && again ==> from == 0 && cmdline == cmdline0
      invariant Multiple !in o.flags && !again ==> values != [] && cmdline == cmdline0 + PrintAll(PrintOne(o, values[..1]))
      decreases |found| - from, again
    {
      var value := NextValue(found, o.name, from);
      NextOfValues(found, o.name, from);
      PrintOneFirst(o, Values(found, o.name, from));
      if value.None? {
        if Argument in o.flags {
          status := MissingArgument;
        }
        assert cmdline + "" == cmdline;
        return;
      }
      assert found[value.value] in found;
      ghost var first := found[value.value].value;
      cmdline := ExtendWithValue(o, found[value.value].value, cmdline);
      again := Multiple in o.flags;
      PrintOneOnly(o, first);
      assert Values(found, o.name, from)[..1] == [first];
      from := value.value + 1;
    }
  }

  lemma PrintOneOnly(o: Optarg, value: string)
    ensures PrintAll(PrintOne(o, [value])) == PrintAll(Head(o, value))
  {
    hide Quoted;
    assert [value][1..] == [] && Head(o, value) + [] == Head(o, value);
  }

  /** The command line that leaving buildmode runs, or the error that prevents it. `env` holds the
      mode and transient mode in which buildmode was entered. */
  method BuildCmdline(env: Env, optargs: seq<Optarg>, found: seq<Pair>, name: string)
    returns (cmdline: string, status: Status)
    requires forall o <- optargs :: NulFree(o.name)
    requires forall p <- found :: NulFree(p.value)
    ensures status.Ok? <==> forall o <- optargs :: !Missing(env, o, found)
    ensures !status.Ok? ==> status == MissingArgument
    ensures status.Ok? ==> cmdline == name + PrintAll(Printed(env, optargs, found, 0))
  {
    hide Visible, PrintOne, PrintedValues, PrintAll, Printed, Values;
    cmdline, status := name, Ok;
    var j := 0;
    while j < |optargs|
      invariant 0 <= j <= |optargs| && status.Ok?
      invariant forall k | 0 <= k < j :: !Missing(env, optargs[k], found)
      invariant cmdline + PrintAll(Printed(env, optargs, found, j)) == name + PrintAll(Printed(env, optargs, found, 0))
    {
      var o := optargs[j];
      assert o in optargs;
      PrintedNext(env, optargs, found, j);
      if Visible(env, o) {
        cmdline, status := ExtendWithOptarg(o, found, cmdline);
        if !status.Ok? {
          assert Missing(env, o, found);
          return;
        }
      }
      j := j + 1;
    }
    PrintedNext(env, optargs, found, j);
    assert cmdline + "" == cmdline;
  }

  lemma PrintedNext(env: Env, optargs: seq<Optarg>, found: seq<Pair>, j: nat)
    requires j <= |optargs|
    ensures j == |optargs| ==> PrintAll(Printed(env, optargs, found, j)) == ""
    ensures j < |optargs| ==>
              PrintAll(Printed(env, optargs, found, j))
              == (if Visible(env, optargs[j]) then PrintAll(PrintOne(optargs[j], PrintedValues(optargs[j], found))) else "")
                 + PrintAll(Printed(env, optargs, found, j + 1))
  {
    hide Visible, PrintOne, PrintedValues, Quoted;
    if j < |optargs| {
      var here := if Visible(env, optargs[j]) then PrintOne(optargs[j], PrintedValues(optargs[j], found)) else [];
      PrintAllAppends(here, Printed(env, optargs, found, j + 1));
    }
  }

  // ----- Matching the printed words again

  /** The optargs for which buildmode promises a faithful replay: plain values, required ones that
      are not repeated, and flags that stand for their own name. */
  predicate Replayable(o: Optarg) {
    && DoNotRecord !in o.flags && RemainderOfLine !in o.flags
    && TransientMode !in o.flags && Hyphenated !in o.flags
    && (if Argument in o.flags then OptionalArgument !in o.flags && OptionalFlag !in o.flags && Multiple !in o.flags
        else OptionalArgument in o.flags <==> OptionalFlag !in o.flags)
    && (OptionalFlag in o.flags ==> o.validator.None?)
  }

  /** The pairs that replaying an optarg records. */
  function PairsOf(o: Optarg, values: seq<string>): seq<Pair> {
    if values == [] then [] else [Pair(o.name, values[0])] + PairsOf(o, values[1..])
  }

  /** All pairs that the replay records for the optargs from `j` on. */
  function Replayed(env: Env, optargs: seq<Optarg>, found: seq<Pair>, j: nat): seq<Pair>
    requires j <= |optargs|
    decreases |optargs| - j
  {
    if j == |optargs| then []
    else (if Visible(env, optargs[j]) then PairsOf(optargs[j], PrintedValues(optargs[j], found)) else [])
         + Replayed(env, optargs, found, j + 1)
  }

  /** No visible required optarg stands between `k` and `j`. */
  predicate OnlyOptional(env: Env, optargs: seq<Optarg>, k: nat, j: nat)
    requires j <= |optargs|
  {
    forall m | k <= m < j :: Visible(env, optargs[m]) ==> Argument !in optargs[m].flags
  }

  /** What can be checked of the settings before they are replayed. */
  ghost predicate ReplaySafe(env: Env, optargs: seq<Optarg>, found: seq<Pair>) {
    && (forall o <- optargs :: Visible(env, o) ==> Replayable(o) && !Missing(env, o, found))
    && (forall i, j | 0 <= i < j < |optargs| && Visible(env, optargs[i]) && Visible(env, optargs[j]) ::
          !CaseEqual(optargs[i].name, optargs[j].name))
    && (forall o <- optargs, v <- PrintedValues(o, found) :: Visible(env, o) ==>
          o.Accepts(v) && (OptionalFlag in o.flags ==> v == o.name))
    && (forall k, j | 0 <= k < j < |optargs| && Visible(env, optargs[k]) && Visible(env, optargs[j])
                      && Argument in optargs[j].flags && OnlyOptional(env, optargs, k, j) ::
          forall v <- PrintedValues(optargs[j], found) :: !CasePrefix(v, optargs[k].name))
  }

  /** A word that only optarg `j` can claim has `j` as its only candidate. */
  lemma {:induction false} OnlyCandidate(env: Env, optargs: seq<Optarg>, i: nat, j: nat, word: string, acc: seq<nat>)
    requires i <= j < |optargs| && Visible(env, optargs[j])
    requires OnlyOptional(env, optargs, i, j)
    requires forall m | i <= m < j && Visible(env, optargs[m]) :: !Decisive(optargs[m], word)
    requires || Decisive(optargs[j], word)
             || (acc == [] && Argument in optargs[j].flags
                 && forall m | i <= m < j && Visible(env, optargs[m]) :: !CasePrefix(word, optargs[m].name))
    ensures Candidates(env, optargs, i, word, acc) == [j]
    decreases j - i
  {
    hide Visible, CasePrefix, Decisive;
    if i < j {
      var acc' := if Visible(env, optargs[i]) && Possible(optargs[i], word) then acc + [i] else acc;
      OnlyCandidate(env, optargs, i + 1, j, word, acc');
    }
  }

  lemma {:induction false} SetPairAppends(found: seq<Pair>, name: string, value: string, multiple: bool)
    requires multiple || forall p <- found :: p.name != name
    ensures SetPair(found, name, value, multiple) == found + [Pair(name, value)]
  {
    if found != [] {
      assert found[0] in found && forall p <- found[1..] :: p in found;
      SetPairAppends(found[1..], name, value, multiple);
      assert found == [found[0]] + found[1..];
    }
  }

  /** Every visible optarg in `[i, j)` is an optional one that `word` does not name. */
  ghost predicate Passed(env: Env, optargs: seq<Optarg>, i: nat, j: nat, word: string)
    requires j <= |optargs|
  {
    forall m | i <= m < j && Visible(env, optargs[m]) ::
      Replayable(optargs[m]) && Argument !in optargs[m].flags && optargs[m].name != word
  }

  lemma PassedNotDecisive(env: Env, optargs: seq<Optarg>, i: nat, j: nat, word: string)
    requires j <= |optargs| && Passed(env, optargs, i, j, word)
    ensures OnlyOptional(env, optargs, i, j)
    ensures forall m | i <= m < j && Visible(env, optargs[m]) :: !Decisive(optargs[m], word)
  {
    hide Visible;
  }

  /** One printed value of an optional argument or flag is recorded again. */
  lemma ReplayOptional(env: Env, optargs: seq<Optarg>, words: seq<string>, i: nat, j: nat, w: nat,
                       found: seq<Pair>, value: string)
    requires env.disallowBuildmode && i <= j < |optargs|
    requires Visible(env, optargs[j]) && Replayable(optargs[j]) && Argument !in optargs[j].flags
    requires Passed(env, optargs, i, j, optargs[j].name)
    requires w + Width(optargs[j]) <= |words| && PrintOne(optargs[j], [value]) <= words[w..]
    requires OptionalFlag in optargs[j].flags ==> value == optargs[j].name
    requires optargs[j].Accepts(value)
    requires Multiple in optargs[j].flags || forall p <- found :: p.name != optargs[j].name
    ensures Match(env, optargs, words, |words|, i, w, found)
         == Match(env, optargs, words, |words|, i, w + Width(optargs[j]), found + [Pair(optargs[j].name, value)])
  {
    hide Visible, Candidates, SetPair, JoinWords, NothingDemanded, Passed;
    var o := optargs[j];
    var printed := PrintOne(o, [value]);
    assert [value][1..] == [] && forall k | 0 <= k < |printed| :: printed[k] == words[w..][k] == words[w + k];
    assert words[w] == o.name;
    PassedNotDecisive(env, optargs, i, j, o.name);
    OnlyCandidate(env, optargs, i, j, o.name, []);
    SetPairAppends(found, o.name, value, Multiple in o.flags);
  }

  /** The printed value of a required optarg is recorded again. */
  lemma ReplayRequired(env: Env, optargs: seq<Optarg>, words: seq<string>, i: nat, j: nat, w: nat,
                       found: seq<Pair>, value: string)
    requires env.disallowBuildmode && i <= j < |optargs|
    requires Visible(env, optargs[j]) && Replayable(optargs[j]) && Argument in optargs[j].flags
    requires Passed(env, optargs, i, j, value)
    requires forall m | i <= m < j && Visible(env, optargs[m]) :: !CasePrefix(value, optargs[m].name)
    requires w < |words| && words[w] == value
    requires optargs[j].Accepts(value)
    requires forall p <- found :: p.name != optargs[j].name
    ensures Match(env, optargs, words, |words|, i, w, found)
         == Match(env, optargs, words, |words|, j + 1, w + 1, found + [Pair(optargs[j].name, value)])
  {
    hide Visible, Candidates, SetPair, JoinWords, NothingDemanded, Passed, CasePrefix;
    PassedNotDecisive(env, optargs, i, j, value);
    OnlyCandidate(env, optargs, i, j, value, []);
    SetPairAppends(found, optargs[j].name, value, false);
  }

  /** All printed values of an optional argument or flag are recorded again. */
  lemma {:induction false} ReplayValues(env: Env, optargs: seq<Optarg>, words: seq<string>, i: nat, j: nat, w: nat,
                                        found: seq<Pair>, values: seq<string>)
    returns (w': nat)
    requires env.disallowBuildmode && i <= j < |optargs|
    requires Visible(env, optargs[j]) && Replayable(optargs[j]) && Argument !in optargs[j].flags
    requires Passed(env, optargs, i, j, optargs[j].name)
    requires w <= |words| && PrintOne(optargs[j], values) <= words[w..]
    requires forall v <- values :: optargs[j].Accepts(v) && (OptionalFlag in optargs[j].flags ==> v == optargs[j].name)
    requires Multiple in optargs[j].flags || values == []
             || (|values| == 1 && forall p <- found :: p.name != optargs[j].name)
    ensures w' <= |words| && words[w'..] == words[w..][|PrintOne(optargs[j], values)|..]
    ensures Match(env, optargs, words, |words|, i, w, found)
         == Match(env, optargs, words, |words|, i, w', found + PairsOf(optargs[j], values))
    decreases |values|
  {
    hide Visible, Match, Passed, Replayable;
    var o := optargs[j];
    if values == [] {
      assert found + [] == found;
      return w;
    }
    var one, rest := PrintOne(o, [values[0]]), values[1..];
    PrintOneSplits(o, values);
    assert values[0] in values && forall v <- rest :: v in values;
    assert one <= words[w..] && |one| == Width(o) by { OneWidth(o, values[0]); }
    ReplayOptional(env, optargs, words, i, j, w, found, values[0]);
    assert words[w + |one|..] == words[w..][|one|..];
    w' := ReplayValues(env, optargs, words, i, j, w + |one|, found + [Pair(o.name, values[0])], rest);
    assert (found + [Pair(o.name, values[0])]) + PairsOf(o, rest) == found + PairsOf(o, values);
  }

  lemma PrintOneSplits(o: Optarg, values: seq<string>)
    requires values != []
    ensures PrintOne(o, values) == PrintOne(o, [values[0]]) + PrintOne(o, values[1..])
  {
    assert [values[0]][1..] == [];
  }

  lemma OneWidth(o: Optarg, value: string)
    requires Replayable(o)
    ensures |PrintOne(o, [value])| == Width(o)
  {
    assert [value][1..] == [];
  }

  lemma {:induction false} PairsNamed(o: Optarg, values: seq<string>)
    ensures forall p <- PairsOf(o, values) :: p.name == o.name
  {
    if values != [] {
      PairsNamed(o, values[1..]);
    }
  }

  /** One visible optarg: its printed words are consumed and its pairs recorded. */
  lemma ReplayOne(env: Env, optargs: seq<Optarg>, settings: seq<Pair>, words: seq<string>,
                  i: nat, j: nat, w: nat, found: seq<Pair>) returns (i': nat, w': nat)
    requires env.disallowBuildmode && ReplaySafe(env, optargs, settings)
    requires i <= j < |optargs| && OnlyOptional(env, optargs, i, j) && Visible(env, optargs[j])
    requires w <= |words| && PrintOne(optargs[j], PrintedValues(optargs[j], settings)) <= words[w..]
    requires forall p <- found :: p.name != optargs[j].name
    ensures i' <= j + 1 && OnlyOptional(env, optargs, i', j + 1)
    ensures w' <= |words|
    ensures words[w'..] == words[w..][|PrintOne(optargs[j], PrintedValues(optargs[j], settings))|..]
    ensures Match(env, optargs, words, |words|, i, w, found)
         == Match(env, optargs, words, |words|, i', w', found + PairsOf(optargs[j], PrintedValues(optargs[j], settings)))
  {
    hide Visible, PrintedValues, CaseEqual, CasePrefix, Match, Missing;
    var o := optargs[j];
    var values := PrintedValues(o, settings);
    assert o in optargs;
    ValuesBounded(o, settings);
    if Argument in o.flags {
      OneRequiredValue(env, o, settings);
      assert values == [values[0]] && values[1..] == [] && values[0] in values;
      assert PrintOne(o, values) == values && PairsOf(o, values) == [Pair(o.name, values[0])];
      RequiredPasses(env, optargs, settings, i, j);
      assert words[w] == words[w..][0] && words[w + 1..] == words[w..][1..];
      ReplayRequired(env, optargs, words, i, j, w, found, values[0]);
      i', w' := j + 1, w + 1;
    } else {
      NamePasses(env, optargs, settings, i, j);
      w' := ReplayValues(env, optargs, words, i, j, w, found, values);
      i' := i;
    }
  }

  /** The induction: optargs before `j` are done, none of the optional ones since `i` was required,
      and the words from `w` on are those printed for the rest. */
  lemma {:induction false} ReplayFrom(env: Env, optargs: seq<Optarg>, settings: seq<Pair>, words: seq<string>,
                                      i: nat, j: nat, w: nat, found: seq<Pair>)
    requires env.disallowBuildmode && ReplaySafe(env, optargs, settings)
    requires i <= j <= |optargs| && OnlyOptional(env, optargs, i, j)
    requires w <= |words| && words[w..] == Printed(env, optargs, settings, j)
    requires forall p <- found, k | j <= k < |optargs| && Visible(env, optargs[k]) :: p.name != optargs[k].name
    ensures Match(env, optargs, words, |words|, i, w, found)
         == Outcome(Ok, found + Replayed(env, optargs, settings, j), |words|)
    decreases |optargs| - j
  {
    hide Visible, Candidates, PrintedValues, Match, ReplaySafe, PrintOne, PairsOf;
    if j == |optargs| {
      ReplayEnds(env, optargs, settings, words, i, w, found);
      assert found + [] == found;
    } else if !Visible(env, optargs[j]) {
      assert [] + Printed(env, optargs, settings, j + 1) == Printed(env, optargs, settings, j + 1);
      assert [] + Replayed(env, optargs, settings, j + 1) == Replayed(env, optargs, settings, j + 1);
      ReplayFrom(env, optargs, settings, words, i, j + 1, w, found);
    } else {
      var o, values := optargs[j], PrintedValues(optargs[j], settings);
      var i', w' := ReplayOne(env, optargs, settings, words, i, j, w, found);
      PairsNamed(o, values);
      DistinctAfter(env, optargs, settings, j);
      ReplayFrom(env, optargs, settings, words, i', j + 1, w', found + PairsOf(o, values));
      assert (found + PairsOf(o, values)) + Replayed(env, optargs, settings, j + 1)
          == found + Replayed(env, optargs, settings, j);
    }
  }

  lemma ReplayEnds(env: Env, optargs: seq<Optarg>, settings: seq<Pair>, words: seq<string>,
                   i: nat, w: nat, found: seq<Pair>)
    requires ReplaySafe(env, optargs, settings)
    requires i <= |optargs| && OnlyOptional(env, optargs, i, |optargs|) && w == |words|
    ensures Match(env, optargs, words, |words|, i, w, found) == Outcome(Ok, found, |words|)
  {
    hide Visible, Candidates, PrintedValues, CaseEqual, CasePrefix;
    forall m | i <= m < |optargs|
      ensures !Demanded(env, optargs[m])
    {
      assert optargs[m] in optargs;
    }
  }

  lemma DistinctAfter(env: Env, optargs: seq<Optarg>, settings: seq<Pair>, j: nat)
    requires ReplaySafe(env, optargs, settings) && j < |optargs| && Visible(env, optargs[j])
    ensures forall k | j < k < |optargs| && Visible(env, optargs[k]) :: optargs[j].name != optargs[k].name
    ensures forall k | 0 <= k < j && Visible(env, optargs[k]) :: optargs[j].name != optargs[k].name
  {
    hide Visible, PrintedValues, CasePrefix, Replayable, Missing;
  }

  lemma OneRequiredValue(env: Env, o: Optarg, settings: seq<Pair>)
    requires Visible(env, o) && Argument in o.flags && Multiple !in o.flags && !Missing(env, o, settings)
    ensures |PrintedValues(o, settings)| == 1
  {
  }

  lemma ValuesBounded(o: Optarg, settings: seq<Pair>)
    ensures Multiple in o.flags || |PrintedValues(o, settings)| <= 1
  {
  }

  lemma RequiredPasses(env: Env, optargs: seq<Optarg>, settings: seq<Pair>, i: nat, j: nat)
    requires ReplaySafe(env, optargs, settings)
    requires i <= j < |optargs| && Visible(env, optargs[j]) && Argument in optargs[j].flags
    requires OnlyOptional(env, optargs, i, j) && |PrintedValues(optargs[j], settings)| == 1
    ensures var v := PrintedValues(optargs[j], settings)[0];
            && Passed(env, optargs, i, j, v)
            && forall m | i <= m < j && Visible(env, optargs[m]) :: !CasePrefix(v, optargs[m].name)
  {
    hide Visible, PrintedValues, CaseEqual, Replayable, Missing;
    var values := PrintedValues(optargs[j], settings);
    assert values[0] in values;
    forall m | i <= m < j && Visible(env, optargs[m])
      ensures !CasePrefix(values[0], optargs[m].name) && optargs[m].name != values[0] && Replayable(optargs[m])
    {
      assert optargs[m] in optargs && OnlyOptional(env, optargs, m, j);
    }
  }

  lemma NamePasses(env: Env, optargs: seq<Optarg>, settings: seq<Pair>, i: nat, j: nat)
    requires ReplaySafe(env, optargs, settings)
    requires i <= j < |optargs| && Visible(env, optargs[j]) && OnlyOptional(env, optargs, i, j)
    ensures Passed(env, optargs, i, j, optargs[j].name)
  {
    hide Visible, PrintedValues, CasePrefix, Replayable, Missing;
    forall m | i <= m < j && Visible(env, optargs[m])
      ensures Replayable(optargs[m]) && optargs[m].name != optargs[j].name
    {
      assert optargs[m] in optargs;
    }
  }

  // ----- The replay is the identity

  /** Every setting belongs to a visible optarg, and only repeatable optargs have several. */
  ghost predicate Settings(env: Env, optargs: seq<Optarg>, settings: seq<Pair>) {
    && (forall p <- settings :: exists k :: 0 <= k < |optargs| && Visible(env, optargs[k]) && optargs[k].name == p.name)
    && (forall o <- optargs :: Visible(env, o) && Multiple !in o.flags ==> |Values(settings, o.name, 0)| <= 1)
  }

  lemma {:induction false} ValuesOfPairs(o: Optarg, values: seq<string>, name: string)
    ensures ValuesOf(PairsOf(o, values), name) == if o.name == name then values else []
  {
    if values != [] {
      ValuesOfPairs(o, values[1..], name);
      assert ([Pair(o.name, values[0])] + PairsOf(o, values[1..]))[1..] == PairsOf(o, values[1..]);
      assert values == [values[0]] + values[1..];
    }
  }

  /** What the optargs from `j` on replay for a name: the printed values of the one that has it. */
  lemma {:induction false} ReplayedValues(env: Env, optargs: seq<Optarg>, settings: seq<Pair>, j: nat, name: string)
    requires ReplaySafe(env, optargs, settings) && j <= |optargs|
    ensures forall k | j <= k < |optargs| && Visible(env, optargs[k]) && optargs[k].name == name ::
              ValuesOf(Replayed(env, optargs, settings, j), name) == PrintedValues(optargs[k], settings)
    ensures (forall k | j <= k < |optargs| && Visible(env, optargs[k]) :: optargs[k].name != name) ==>
              ValuesOf(Replayed(env, optargs, settings, j), name) == []
    decreases |optargs| - j
  {
    hide Visible, ReplaySafe, PrintedValues, ValuesOf, PairsOf;
    if j == |optargs| {
      NoPairNoValues([], name);
    } else {
      var here := if Visible(env, optargs[j]) then PairsOf(optargs[j], PrintedValues(optargs[j], settings)) else [];
      ReplayedValues(env, optargs, settings, j + 1, name);
      ValuesOfAppend(here, Replayed(env, optargs, settings, j + 1), name);
      if Visible(env, optargs[j]) {
        ValuesOfPairs(optargs[j], PrintedValues(optargs[j], settings), name);
        DistinctAfter(env, optargs, settings, j);
      } else {
        NoPairNoValues([], name);
      }
    }
  }

  /** The values that are printed for an optarg are those that were set for its name. */
  lemma PrintedAreSet(env: Env, optargs: seq<Optarg>, settings: seq<Pair>, k: nat)
    requires ReplaySafe(env, optargs, settings) && Settings(env, optargs, settings)
    requires k < |optargs| && Visible(env, optargs[k])
    ensures PrintedValues(optargs[k], settings) == ValuesOf(settings, optargs[k].name)
  {
    hide Visible, CasePrefix, CaseEqual, Replayable, Missing, Values;
    var o := optargs[k];
    assert o in optargs;
    var values := Values(settings, o.name, 0);
    assert |values| == 1 ==> values[..1] == values;
    forall p | p in settings && CaseEqual(p.name, o.name)
      ensures p.name == o.name
    {
      DistinctAfter(env, optargs, settings, k);
      var m :| 0 <= m < |optargs| && Visible(env, optargs[m]) && optargs[m].name == p.name;
      SameCaseSameOptarg(env, optargs, settings, m, k);
    }
    ReadingAgrees(settings, o.name);
  }

  lemma SameCaseSameOptarg(env: Env, optargs: seq<Optarg>, settings: seq<Pair>, m: nat, k: nat)
    requires ReplaySafe(env, optargs, settings) && m < |optargs| && k < |optargs|
    requires Visible(env, optargs[m]) && Visible(env, optargs[k]) && CaseEqual(optargs[m].name, optargs[k].name)
    ensures m == k
  {
    hide Visible, PrintedValues, CasePrefix, Replayable, Missing;
  }

  /** The replay sets the same values for every name, in the same order. */
  lemma ReplayedAreSet(env: Env, optargs: seq<Optarg>, settings: seq<Pair>, name: string)
    requires ReplaySafe(env, optargs, settings) && Settings(env, optargs, settings)
    ensures ValuesOf(Replayed(env, optargs, settings, 0), name) == ValuesOf(settings, name)
  {
    hide Visible, ReplaySafe, PrintedValues, ValuesOf, Replayed, Values;
    ReplayedValues(env, optargs, settings, 0, name);
    if k :| 0 <= k < |optargs| && Visible(env, optargs[k]) && optargs[k].name == name {
      PrintedAreSet(env, optargs, settings, k);
    } else {
      NoPairNoValues(settings, name);
    }
  }

  /** The printed words are ones that the tokeniser gives back. */
  ghost predicate Printable(ws: seq<string>) {
    forall w <- ws :: Quotable(w) && NulFree(w)
  }

  lemma {:induction false} PrintAllNulFree(ws: seq<string>)
    requires Printable(ws)
    ensures NulFree(PrintAll(ws))
  {
    if ws != [] {
      assert ws[0] in ws && forall w <- ws[1..] :: w in ws;
      PrintAllNulFree(ws[1..]);
      ChosenQuote(ws[0], if ws[0] == "" then '"' else NUL);
    }
  }

  /** The line that leaving buildmode runs is tokenised into the words of the command name and the
      printed words; it is one pipeline stage exactly when no printed word starts with a pipe. */
  lemma ReplayedLine(name: string, printed: seq<string>)
    requires CommandName(name) && SeparatorFree(Words(name, MAX_LINE_WORDS - 1))
    requires Printable(printed)
    requires |Words(name, MAX_LINE_WORDS - 1)| + |printed| < MAX_LINE_WORDS
    ensures NulFree(name + PrintAll(printed))
    ensures var words := Words(name + PrintAll(printed), MAX_LINE_WORDS - 1);
            && words == Words(name, MAX_LINE_WORDS - 1) + printed
            && (Partition(words, [Stage(0, |words|)]) <==> SeparatorFree(printed))
  {
    hide Words, Lex, Quoted;
    PrintAllNulFree(printed);
    RoundTrip(name, printed, MAX_LINE_WORDS - 1);
    var words := Words(name, MAX_LINE_WORDS - 1) + printed;
    assert words[0..] == words;
    assert forall w <- printed :: w in words;
  }

  /** Replaying the settings records the same settings: matched against the words after the command
      name, the replayed line succeeds, leaves no word over and finds the same name/value pairs, with
      the values of each name in the same order. */
  lemma ReplayIsIdentity(env: Env, optargs: seq<Optarg>, settings: seq<Pair>, name: string)
    requires env.disallowBuildmode
    requires ReplaySafe(env, optargs, settings) && Settings(env, optargs, settings)
    requires CommandName(name) && SeparatorFree(Words(name, MAX_LINE_WORDS - 1))
    requires Printable(Printed(env, optargs, settings, 0)) && SeparatorFree(Printed(env, optargs, settings, 0))
    requires |Words(name, MAX_LINE_WORDS - 1)| + |Printed(env, optargs, settings, 0)| < MAX_LINE_WORDS
    ensures var line := name + PrintAll(Printed(env, optargs, settings, 0));
            var words := Words(line, MAX_LINE_WORDS - 1);
            var r := Match(env, optargs, words, |words|, 0, |Words(name, MAX_LINE_WORDS - 1)|, []);
            && Partition(words, [Stage(0, |words|)])
            && r.status.Ok? && r.firstUnmatched == |words|
            && multiset(r.found) == multiset(settings)
            && forall n :: ValuesOf(r.found, n) == ValuesOf(settings, n)
  {
    hide Words, Match, ReplaySafe, Settings, Printed, Replayed, CommandName, ValuesOf;
    var printed := Printed(env, optargs, settings, 0);
    ReplayedLine(name, printed);
    var before := Words(name, MAX_LINE_WORDS - 1);
    var words := before + printed;
    assert words[|before|..] == printed;
    ReplayFrom(env, optargs, settings, words, 0, 0, |before|, []);
    var replayed := Replayed(env, optargs, settings, 0);
    assert [] + replayed == replayed;
    forall n
      ensures ValuesOf(replayed, n) == ValuesOf(settings, n)
    {
      ReplayedAreSet(env, optargs, settings, n);
    }
    SameValuesSamePairs(replayed, settings);
  }

  /** The condition on required values is needed: a value that abbreviates the name of an optional
      argument standing just before makes the replay ambiguous. */
  lemma AbbreviatingValueIsAmbiguous(env: Env, optargs: seq<Optarg>, words: seq<string>, i: nat, k: nat, j: nat,
                                     w: nat, found: seq<Pair>)
    requires i <= k < j < |optargs| && w < |words|
    requires Visible(env, optargs[k]) && Visible(env, optargs[j])
    requires Argument in optargs[j].flags && Replayable(optargs[j]) && OnlyOptional(env, optargs, i, j)
    requires CasePrefix(words[w], optargs[k].name)
    requires forall m | i <= m < j && Visible(env, optargs[m]) :: !Decisive(optargs[m], words[w])
    ensures Match(env, optargs, words, |words|, i, w, found) == Outcome(Ambiguous, found, w)
  {
    hide Visible, Decisive, CasePrefix;
    assert !Decisive(optargs[j], words[w]) by { RequiredNotDecisive(optargs[j], words[w]); }
    BothCandidates(env, optargs, i, k, j, words[w], []);
  }

  lemma RequiredNotDecisive(o: Optarg, word: string)
    requires Replayable(o) && Argument in o.flags
    ensures !Decisive(o, word)
  {
  }

  lemma {:induction false} BothCandidates(env: Env, optargs: seq<Optarg>, i: nat, k: nat, j: nat, word: string,
                                          acc: seq<nat>)
    requires i <= j < |optargs| && k < j
    requires Visible(env, optargs[k]) && Visible(env, optargs[j])
    requires Argument in optargs[j].flags && OnlyOptional(env, optargs, i, j)
    requires CasePrefix(word, optargs[k].name)
    requires forall m | i <= m <= j && Visible(env, optargs[m]) :: !Decisive(optargs[m], word)
    requires k < i ==> acc != []
    ensures |Candidates(env, optargs, i, word, acc)| > 1
    decreases j - i
  {
    hide Visible, Decisive, CasePrefix;
    if i < j {
      var acc' := if Visible(env, optargs[i]) && Possible(optargs[i], word) then acc + [i] else acc;
      BothCandidates(env, optargs, i + 1, k, j, word, acc');
    }
  }
}

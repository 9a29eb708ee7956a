/** Matching the words after a command against its optargs: `cli_int_parse_optargs`, when a line is
    evaluated for execution. */
module OptargMatch {
  import opened CStrings
  import Modes

  datatype Flag =
    | OptionalFlag | OptionalArgument | Argument | AllowBuildmode | Multiple | TransientMode
    | DoNotRecord | RemainderOfLine | Hyphenated

  /** A registered optarg. A validator is a function of the word it is given. */
  datatype Optarg = Optarg(name: string, flags: set<Flag>, privilege: int, mode: int,
                           validator: Option<string -> bool>)
  {
    predicate Accepts(value: string) {
      validator.None? || validator.value(value)
    }
  }

  /** The fields of the CLI that the matcher consults. */
  datatype Env = Env(privilege: int, mode: int, transientMode: int, disallowBuildmode: bool)

  predicate Visible(env: Env, o: Optarg) {
    && env.privilege >= o.privilege
    && (o.mode == env.mode || o.mode == env.transientMode || o.mode == Modes.MODE_ANY)
  }

  // ----- Found name/value pairs

  datatype Pair = Pair(name: string, value: string)

  /** `cli_set_optarg_value`: overwrite the first pair of that name, or append. */
  function SetPair(found: seq<Pair>, name: string, value: string, multiple: bool): seq<Pair> {
    if found == [] then [Pair(name, value)]
    else if found[0].name == name && !multiple then [Pair(name, value)] + found[1..]
    else [found[0]] + SetPair(found[1..], name, value, multiple)
  }

  function JoinWords(words: seq<string>): string {
    if |words| == 0 then "" else if |words| == 1 then words[0]
    else words[0] + " " + JoinWords(words[1..])
  }

  // ----- Candidates for one word

  /** The word decides for this optarg at once, whatever was collected before. */
  predicate Decisive(o: Optarg, word: string) {
    || (word != "" && word[0] == '-' && Hyphenated in o.flags)
    || (OptionalFlag in o.flags && if o.validator.Some? then o.validator.value(word) else o.name == word)
    || (OptionalArgument in o.flags && o.name == word)
  }

  predicate Possible(o: Optarg, word: string) {
    Argument in o.flags || CasePrefix(word, o.name)
  }

  /** The candidates for `word` from `optargs[i..]`, when `acc` were collected before. */
  function Candidates(env: Env, optargs: seq<Optarg>, i: nat, word: string, acc: seq<nat>): (cs: seq<nat>)
    requires i <= |optargs|
    ensures forall c <- cs :: c in acc || (i <= c < |optargs| && Visible(env, optargs[c]))
    decreases |optargs| - i
  {
    if i == |optargs| then acc
    else if !Visible(env, optargs[i]) then Candidates(env, optargs, i + 1, word, acc)
    else if Decisive(optargs[i], word) then [i]
    else
      var acc' := if Possible(optargs[i], word) then acc + [i] else acc;
      if Argument in optargs[i].flags then acc' else Candidates(env, optargs, i + 1, word, acc')
  }

  // ----- The words of a stage

  datatype Status = Ok | Error | Ambiguous | MissingArgument | MissingValue | EnterBuildmode

  /** What matching leaves in the stage. */
  datatype Outcome = Outcome(status: Status, found: seq<Pair>, firstUnmatched: nat)

  /** An optarg that execution insists on. */
  predicate Demanded(env: Env, o: Optarg) {
    Visible(env, o) && DoNotRecord !in o.flags && (Argument in o.flags || TransientMode in o.flags)
  }

  predicate NothingDemanded(env: Env, optargs: seq<Optarg>, i: nat) {
    forall j :: i <= j < |optargs| ==> !Demanded(env, optargs[j])
  }

  function Finish(env: Env, optargs: seq<Optarg>, i: nat, found: seq<Pair>, w: nat): Outcome {
    Outcome(if NothingDemanded(env, optargs, i) then Ok else MissingArgument, found, w)
  }

  /** The value that `o` takes from word `w`, when there is one. The array of words continues past
      the stage, so the "next word" of an optional argument may be a separator. */
  function ValueAt(o: Optarg, words: seq<string>, w: nat): Option<string>
    requires w < |words|
  {
    if OptionalArgument !in o.flags then Some(words[w])
    else if w + 1 < |words| then Some(words[w + 1]) else None
  }

  function Recorded(o: Optarg, words: seq<string>, num: nat, w: nat, value: string, found: seq<Pair>): seq<Pair>
    requires w < num <= |words|
  {
    if RemainderOfLine in o.flags then SetPair(found, o.name, JoinWords(words[w..num]), false)
    else SetPair(found, o.name, value, Multiple in o.flags)
  }

  predicate IsLastWord(o: Optarg, num: nat, w: nat) {
    || ((OptionalFlag in o.flags || Argument in o.flags) && w + 1 == num)
    || (OptionalArgument in o.flags && w + 2 == num)
  }

  function Width(o: Optarg): nat {
    if OptionalArgument in o.flags then 2 else 1
  }

  /** Matching from word `w` on, with the optargs from `i` on still to come. `words` are the words
      from the stage's first one to the end of the line, `num` of them in the stage. */
  function Match(env: Env, optargs: seq<Optarg>, words: seq<string>, num: nat,
                 i: nat, w: nat, found: seq<Pair>): Outcome
    requires i <= |optargs| && num <= |words|
    decreases num - w, 1
  {
    if i == |optargs| || w >= num then Finish(env, optargs, i, found, w)
    else
      var candidates := Candidates(env, optargs, i, words[w], []);
      if |candidates| == 0 then Finish(env, optargs, i, found, w)
      else if |candidates| > 1 then Outcome(Ambiguous, found, w)
      else
        assert candidates[0] in candidates;
        Turn(env, optargs, words, num, i, w, found, candidates[0])
  }

  /** Word `w` is for optarg `c`. */
  function Turn(env: Env, optargs: seq<Optarg>, words: seq<string>, num: nat,
                i: nat, w: nat, found: seq<Pair>, c: nat): Outcome
    requires i <= |optargs| && w < num <= |words| && c < |optargs|
    decreases num - w, 0
  {
    var o := optargs[c];
    var value := ValueAt(o, words, w);
    if value.None? then Outcome(MissingValue, found, w)
    else if !o.Accepts(value.value) then Outcome(Error, found, w)
    else if DoNotRecord in o.flags then Finish(env, optargs, i, found, w)
    else
      var found' := Recorded(o, words, num, w, value.value, found);
      if !env.disallowBuildmode && AllowBuildmode in o.flags && IsLastWord(o, num, w) then
        Outcome(EnterBuildmode, found', w)
      else
        Match(env, optargs, words, num, if Argument in o.flags then c + 1 else i, w + Width(o), found')
  }

  /** The defining equations of `Match`, for proofs that keep its body hidden. */
  lemma MatchEnds(env: Env, optargs: seq<Optarg>, words: seq<string>, num: nat, i: nat, w: nat, found: seq<Pair>)
    requires i <= |optargs| && num <= |words|
    requires i == |optargs| || w >= num || |Candidates(env, optargs, i, words[w], [])| == 0
    ensures Match(env, optargs, words, num, i, w, found) == Finish(env, optargs, i, found, w)
  {
  }

  lemma MatchTurns(env: Env, optargs: seq<Optarg>, words: seq<string>, num: nat, i: nat, w: nat, found: seq<Pair>)
    requires i < |optargs| && w < num <= |words|
    ensures var candidates := Candidates(env, optargs, i, words[w], []);
            && (|candidates| > 1 ==> Match(env, optargs, words, num, i, w, found) == Outcome(Ambiguous, found, w))
            && (|candidates| == 1 ==>
                  && candidates[0] < |optargs|
                  && Match(env, optargs, words, num, i, w, found) == Turn(env, optargs, words, num, i, w, found, candidates[0]))
  {
    hide Candidates;
    var candidates := Candidates(env, optargs, i, words[w], []);
    if |candidates| == 1 {
      assert candidates[0] in candidates;
    }
  }

  /** A pipeline stage while its words are matched. */
  class StageMatch {
    const words: seq<string>
    const numWords: nat
    var status: Status
    var firstUnmatched: nat
    var foundOptargs: seq<Pair>

    constructor (words: seq<string>, numWords: nat, firstUnmatched: nat)
      requires numWords <= |words|
      ensures this.words == words && this.numWords == numWords
      ensures status == Ok && this.firstUnmatched == firstUnmatched && foundOptargs == []
    {
      this.words, this.numWords, this.firstUnmatched := words, numWords, firstUnmatched;
      status, foundOptargs := Ok, [];
    }

    method FindCandidates(env: Env, optargs: seq<Optarg>, optarg: nat, word: string) returns (candidates: seq<nat>)
      requires optarg <= |optargs|
      ensures candidates == Candidates(env, optargs, optarg, word, [])
    {
      candidates := [];
      var oaptr := optarg;
      while oaptr < |optargs|
        invariant oaptr <= |optargs|
        invariant Candidates(env, optargs, oaptr, word, candidates) == Candidates(env, optargs, optarg, word, [])
      {
        if Visible(env, optargs[oaptr]) {
          if Decisive(optargs[oaptr], word) {
            return [oaptr];
          } else if Possible(optargs[oaptr], word) {
            candidates := candidates + [oaptr];
          }
          if Argument in optargs[oaptr].flags {
            return;
          }
        }
        oaptr := oaptr + 1;
      }
    }

    method CheckDemanded(env: Env, optargs: seq<Optarg>, from: nat)
      requires from <= |optargs| && status == Ok
      modifies this`status
      ensures status == if NothingDemanded(env, optargs, from) then Ok else MissingArgument
    {
      for optarg := from to |optargs|
        invariant forall j :: from <= j < optarg ==> !Demanded(env, optargs[j])
        invariant status == Ok
      {
        if Demanded(env, optargs[optarg]) {
          status := MissingArgument;
          return;
        }
      }
    }

    method ParseOptargs(env: Env, optargs: seq<Optarg>)
      requires numWords <= |words| && status == Ok
      modifies this
      ensures Outcome(status, foundOptargs, firstUnmatched)
           == Match(env, optargs, words, numWords, 0, old(firstUnmatched), old(foundOptargs))
    {
      hide Candidates, NothingDemanded, JoinWords, SetPair, IsLastWord, Visible, Match;
      ghost var result := Match(env, optargs, words, numWords, 0, firstUnmatched, foundOptargs);
      var optarg: nat := 0;
      while optarg < |optargs| && firstUnmatched < numWords
        invariant optarg <= |optargs| && status == Ok
        invariant Match(env, optargs, words, numWords, optarg, firstUnmatched, foundOptargs) == result
        decreases numWords - firstUnmatched
      {
        var wordIdx := firstUnmatched;
        var candidates := FindCandidates(env, optargs, optarg, words[wordIdx]);
        if |candidates| == 0 {
          MatchEnds(env, optargs, words, numWords, optarg, firstUnmatched, foundOptargs);
          break;
        }
        MatchTurns(env, optargs, words, numWords, optarg, firstUnmatched, foundOptargs);
        if |candidates| > 1 {
          status := Ambiguous;
          return;
        }
        assert candidates[0] in candidates;
        var oaptr := optargs[candidates[0]];
        var value, wordIncr: nat := words[wordIdx], 1;
        var isLastWord := IsLastWord(oaptr, numWords, wordIdx);
        if OptionalArgument in oaptr.flags {
          wordIncr := 2;
          if wordIdx + 1 >= |words| {
            status := MissingValue;
            return;
          }
          value := words[wordIdx + 1];
        }
        if !oaptr.Accepts(value) {
          status := Error;
          return;
        }
        if DoNotRecord in oaptr.flags {
          break;
        }
        if RemainderOfLine in oaptr.flags {
          foundOptargs := SetPair(foundOptargs, oaptr.name, JoinWords(words[wordIdx..numWords]), false);
        } else {
          foundOptargs := SetPair(foundOptargs, oaptr.name, value, Multiple in oaptr.flags);
        }
        if !env.disallowBuildmode && AllowBuildmode in oaptr.flags && isLastWord {
          status := EnterBuildmode;
          return;
        }
        if Argument in oaptr.flags {
          optarg := candidates[0] + 1;
        }
        firstUnmatched := wordIdx + wordIncr;
      }
      if optarg == |optargs| || firstUnmatched >= numWords {
        MatchEnds(env, optargs, words, numWords, optarg, firstUnmatched, foundOptargs);
      }
      assert result == Finish(env, optargs, optarg, foundOptargs, firstUnmatched);
      CheckDemanded(env, optargs, optarg);
    }
  }
}

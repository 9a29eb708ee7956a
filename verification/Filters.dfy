/** The filters behind a pipeline: the state machine of each one, and the chain that every output
    line runs through (`_print` with `cli_match_filter`, `cli_range_filter`, `cli_count_filter`). */
module Filters {
  import opened CStrings

  /** `strstr(line, text) != NULL` */
  predicate Contains(line: string, text: string) {
    exists i | 0 <= i <= |line| :: text <= line[i..]
  }

  datatype State =
    | Match(pattern: string, invert: bool)
    | Range(from: string, to: Option<string>, matched: bool) // `begin` has no `to`
    | Count(nonBlank: nat)

  predicate Ends(to: Option<string>, line: string) {
    to.Some? && Contains(line, to.value)
  }

  datatype Outcome = Outcome(state: State, keep: bool)

  function Step(state: State, line: string): Outcome {
    match state
    case Match(pattern, invert) => Outcome(state, Contains(line, pattern) != invert)
    case Range(from, to, matched) =>
      var keep := matched || Contains(line, from);
      Outcome(Range(from, to, keep && !Ends(to, line)), keep)
    case Count(n) => Outcome(Count(if TrimLeft(line) != "" then n + 1 else n), false)
  }

  // ----- One filter over a whole output

  datatype Run = Run(state: State, kept: seq<string>)

  function Butlast<T>(s: seq<T>): (r: seq<T>)
    requires s != []
    ensures r + [s[|s| - 1]] == s
  {
    s[..|s| - 1]
  }

  /** What is left of `lines` when a filter alone reads them. */
  function Through(state: State, lines: seq<string>): (r: Run)
    decreases |lines|
  {
    if lines == [] then Run(state, [])
    else
      var before := Through(state, Butlast(lines));
      var last := lines[|lines| - 1];
      var step := Step(before.state, last);
      Run(step.state, if step.keep then before.kept + [last] else before.kept)
  }

  /** Line `i` lies in a range that some line up to it opened and no line before it ended. */
  ghost predicate InRange(from: string, to: Option<string>, lines: seq<string>, i: nat)
    requires i < |lines|
  {
    exists j: nat :: j <= i && Contains(lines[j], from) && StaysOpen(to, lines, j, i)
  }

  ghost predicate StaysOpen(to: Option<string>, lines: seq<string>, j: nat, i: nat)
    requires i <= |lines|
  {
    forall k :: j <= k < i ==> !Ends(to, lines[k])
  }

  /** The lines in a range, in order. */
  ghost function LinesInRange(from: string, to: Option<string>, lines: seq<string>, n: nat): seq<string>
    requires n <= |lines|
  {
    if n == 0 then []
    else LinesInRange(from, to, lines, n - 1) + if InRange(from, to, lines, n - 1) then [lines[n - 1]] else []
  }

  /** The filter's one bit is its meaning: the range is open after `n` lines. */
  lemma {:induction false} RangeState(from: string, to: Option<string>, lines: seq<string>, n: nat)
    requires n <= |lines|
    ensures Through(Range(from, to, false), lines[..n]).state.Range?
    ensures var s := Through(Range(from, to, false), lines[..n]).state;
            && s == Range(from, to, s.matched)
            && (s.matched <==> exists j: nat :: j < n && Contains(lines[j], from) && StaysOpen(to, lines, j, n))
    ensures Through(Range(from, to, false), lines[..n]).kept == LinesInRange(from, to, lines, n)
  {
    if n > 0 {
      hide Contains;
      RangeState(from, to, lines, n - 1);
      assert Butlast(lines[..n]) == lines[..n - 1];
      var before := Through(Range(from, to, false), lines[..n - 1]).state;
      assert InRange(from, to, lines, n - 1) == (before.matched || Contains(lines[n - 1], from)) by {
        assert StaysOpen(to, lines, n - 1, n - 1);
      }
      assert forall j: nat :: j < n ==>
          StaysOpen(to, lines, j, n) == (StaysOpen(to, lines, j, n - 1) && !Ends(to, lines[n - 1]));
    }
  }

  /** `begin` and `between` keep exactly the lines of their ranges. */
  lemma RangeKeepsItsLines(from: string, to: Option<string>, lines: seq<string>)
    ensures Through(Range(from, to, false), lines).kept == LinesInRange(from, to, lines, |lines|)
  {
    RangeState(from, to, lines, |lines|);
    assert lines[..|lines|] == lines;
  }

  /** The lines in which `text` occurs, or with `invert` those in which it does not, in order. */
  ghost function LinesWith(text: string, invert: bool, lines: seq<string>, n: nat): seq<string>
    requires n <= |lines|
  {
    if n == 0 then []
    else
      LinesWith(text, invert, lines, n - 1)
      + if (Holds(lines[n - 1], text) <==> !invert) then [lines[n - 1]] else []
  }

  predicate Occurs(text: string, line: string, i: nat)
    requires i + |text| <= |line|
  {
    forall k :: 0 <= k < |text| ==> line[i + k] == text[k]
  }

  ghost predicate Holds(line: string, text: string) {
    exists i :: 0 <= i && i + |text| <= |line| && Occurs(text, line, i)
  }

  lemma ContainsMeans(line: string, text: string)
    ensures Contains(line, text) <==> Holds(line, text)
  {
    forall i | 0 <= i <= |line|
      ensures text <= line[i..] <==> i + |text| <= |line| && Occurs(text, line, i)
    {
      assert i + |text| <= |line| && Occurs(text, line, i) ==> line[i..][..|text|] == text;
      assert text <= line[i..] ==> forall k :: 0 <= k < |text| ==> line[i..][k] == text[k];
    }
  }

  /** `include` keeps exactly the lines that hold the text, and `exclude` the others. */
  lemma {:induction false} MatchKeepsItsLines(text: string, invert: bool, lines: seq<string>, n: nat)
    requires n <= |lines|
    ensures Through(Match(text, invert), lines[..n]) == Run(Match(text, invert), LinesWith(text, invert, lines, n))
  {
    hide Contains, Holds;
    if n > 0 {
      MatchKeepsItsLines(text, invert, lines, n - 1);
      assert Butlast(lines[..n]) == lines[..n - 1];
      ContainsMeans(lines[n - 1], text);
    }
  }

  /** How many of the first `n` lines have a character that is not white space. */
  ghost function NonBlank(lines: seq<string>, n: nat): nat
    requires n <= |lines|
  {
    if n == 0 then 0
    else NonBlank(lines, n - 1) + if exists c <- lines[n - 1] :: !IsSpace(c) then 1 else 0
  }

  lemma {:induction false} TrimmedBlank(s: string)
    ensures TrimLeft(s) != "" <==> exists c <- s :: !IsSpace(c)
  {
    if s != "" {
      assert s[0] in s && s == [s[0]] + s[1..];
      TrimmedBlank(s[1..]);
    }
  }

  /** `count` prints nothing and counts the lines that are not blank. */
  lemma {:induction false} CountCounts(lines: seq<string>, n: nat)
    requires n <= |lines|
    ensures Through(Count(0), lines[..n]) == Run(Count(NonBlank(lines, n)), [])
  {
    hide TrimLeft, IsSpace;
    if n > 0 {
      CountCounts(lines, n - 1);
      assert Butlast(lines[..n]) == lines[..n - 1];
      TrimmedBlank(lines[n - 1]);
    }
  }

  // ----- The chain

  datatype Passed = Passed(states: seq<State>, pass: bool)

  /** One line meets the filters in order, until one of them drops it. */
  function OneLine(states: seq<State>, line: string): (r: Passed)
    ensures |r.states| == |states|
    decreases |states|
  {
    if states == [] then Passed([], true)
    else
      var step := Step(states[0], line);
      if !step.keep then Passed([step.state] + states[1..], false)
      else
        var rest := OneLine(states[1..], line);
        Passed([step.state] + rest.states, rest.pass)
  }

  datatype Output = Output(states: seq<State>, printed: seq<string>)

  /** What the chain makes of a line that the filters before `i` have already met. */
  function Remaining(states: seq<State>, i: nat, pass: bool, line: string): Passed
    requires i <= |states|
  {
    var rest := if pass then OneLine(states[i..], line) else Passed(states[i..], false);
    Passed(states[..i] + rest.states, rest.pass)
  }

  lemma RemainingAfter(states: seq<State>, i: nat, line: string)
    requires i < |states|
    ensures var step := Step(states[i], line);
            Remaining(states, i, true, line) == Remaining(states[i := step.state], i + 1, step.keep, line)
  {
    hide Step;
    var next := states[i := Step(states[i], line).state];
    assert states[i..][1..] == states[i + 1..] == next[i + 1..];
    assert next[..i + 1] == states[..i] + [next[i]];
  }

  lemma RemainingEnds(states: seq<State>, i: nat, pass: bool, line: string)
    requires i <= |states| && (pass ==> i == |states|)
    ensures Remaining(states, i, pass, line) == Passed(states, pass)
    ensures Remaining(states, 0, true, line) == OneLine(states, line)
  {
    hide Step;
    assert states[..i] + states[i..] == states && states[0..] == states;
    assert i == |states| ==> states[i..] == [];
  }

  function LineByLine(states: seq<State>, lines: seq<string>): (r: Output)
    ensures |r.states| == |states|
    decreases |lines|
  {
    if lines == [] then Output(states, [])
    else
      OneMore(LineByLine(states, Butlast(lines)), lines[|lines| - 1])
  }

  function OneMore(before: Output, line: string): (r: Output)
    ensures |r.states| == |before.states|
  {
    var passed := OneLine(before.states, line);
    Output(passed.states, if passed.pass then before.printed + [line] else before.printed)
  }

  /** Every stage reads the whole of what the stage before it kept. */
  function StageByStage(states: seq<State>, lines: seq<string>): (r: Output)
    ensures |r.states| == |states|
    decreases |states|
  {
    if states == [] then Output([], lines)
    else
      var first := Through(states[0], lines);
      var rest := StageByStage(states[1..], first.kept);
      Output([first.state] + rest.states, rest.printed)
  }

  /** A stage-by-stage run extended by a line is that line sent down the chain. */
  lemma {:induction false} StagesOneMore(states: seq<State>, lines: seq<string>, line: string)
    ensures StageByStage(states, lines + [line]) == OneMore(StageByStage(states, lines), line)
    decreases |states|
  {
    if states != [] {
      hide Step;
      var first := Through(states[0], lines);
      var rest := StageByStage(states[1..], first.kept);
      assert Butlast(lines + [line]) == lines;
      var all := [first.state] + rest.states;
      assert all[1..] == rest.states;
      if Step(first.state, line).keep {
        StagesOneMore(states[1..], first.kept, line);
      }
    }
  }

  /** Filtering each line as it comes is the composition of the stages: a line is printed iff every
      stage, fed only what its predecessors kept, keeps it; and every filter ends in the state of
      such a run, so `count` counts what reached it. */
  lemma {:induction false} ChainIsComposition(states: seq<State>, lines: seq<string>)
    ensures LineByLine(states, lines) == StageByStage(states, lines)
    decreases |lines|
  {
    if lines == [] {
      NothingThrough(states);
    } else {
      ChainIsComposition(states, Butlast(lines));
      StagesOneMore(states, Butlast(lines), lines[|lines| - 1]);
    }
  }

  lemma {:induction false} NothingThrough(states: seq<State>)
    ensures StageByStage(states, []) == Output(states, [])
  {
    if states != [] {
      NothingThrough(states[1..]);
    }
  }

  // ----- The filters as the program updates them

  class Filter {
    var state: State

    constructor (state: State)
      ensures this.state == state
    {
      this.state := state;
    }

    method Apply(line: string) returns (keep: bool)
      modifies this
      ensures Outcome(state, keep) == Step(old(state), line)
    {
      match state {
        case Match(pattern, invert) =>
          keep := Contains(line, pattern);
          if invert {
            keep := !keep;
          }
        case Range(from, to, _) =>
          if !state.matched {
            state := state.(matched := Contains(line, from));
          }
          keep := false;
          if state.matched {
            keep := true;
            if to.Some? && Contains(line, to.value) {
              state := state.(matched := false);
            }
          }
        case Count(n) =>
          if TrimLeft(line) != "" {
            state := Count(n + 1);
          }
          keep := false;
      }
    }
  }

  class Printer {
    const filters: seq<Filter>
    var printed: seq<string>

    ghost predicate Valid() {
      forall i, j :: 0 <= i < j < |filters| ==> filters[i] != filters[j]
    }

    ghost function States(): (r: seq<State>)
      reads filters
      ensures |r| == |filters|
      ensures forall k :: 0 <= k < |r| ==> r[k] == filters[k].state
    {
      seq(|filters|, k requires 0 <= k < |filters| reads filters => filters[k].state)
    }

    constructor (filters: seq<Filter>)
      ensures this.filters == filters && printed == []
    {
      this.filters := filters;
      printed := [];
    }

    method ApplyFilter(i: nat, line: string) returns (keep: bool)
      requires Valid() && i < |filters|
      modifies filters[i]
      ensures var step := Step(old(States())[i], line);
              States() == old(States())[i := step.state] && keep == step.keep
    {
      hide Step;
      keep := filters[i].Apply(line);
    }

    /** The chain for one line of output. */
    method PrintLine(line: string)
      requires Valid()
      modifies this`printed, filters
      ensures Output(States(), printed) == OneMore(Output(old(States()), old(printed)), line)
    {
      hide Step, OneLine, Remaining;
      var pass, i := true, 0;
      RemainingEnds(States(), |filters|, true, line);
      while pass && i < |filters|
        invariant i <= |filters| && printed == old(printed)
        invariant Remaining(States(), i, pass, line) == OneLine(old(States()), line)
        decreases pass, |filters| - i
      {
        RemainingAfter(States(), i, line);
        pass := ApplyFilter(i, line);
        i := i + 1;
      }
      RemainingEnds(States(), i, pass, line);
      if pass {
        printed := printed + [line];
      }
    }

    method PrintAll(lines: seq<string>)
      requires Valid()
      modifies this`printed, filters
      ensures States() == StageByStage(old(States()), lines).states
      ensures printed == old(printed) + StageByStage(old(States()), lines).printed
    {
      hide OneLine;
      for n := 0 to |lines|
        invariant States() == LineByLine(old(States()), lines[..n]).states
        invariant printed == old(printed) + LineByLine(old(States()), lines[..n]).printed
      {
        assert Butlast(lines[..n + 1]) == lines[..n];
        PrintLine(lines[n]);
      }
      assert lines[..|lines|] == lines;
      ChainIsComposition(old(States()), lines);
    }
  }
}

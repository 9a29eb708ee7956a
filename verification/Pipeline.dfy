/** Splitting a tokenised line into pipeline stages: `cli_int_generate_pipeline`. */
module Pipeline {
  import opened CStrings
  import opened Tokeniser

  /** A stage is a window on the words of the line; the words themselves are shared. */
  datatype Stage = Stage(start: nat, numWords: nat) {
    function End(): nat { start + numWords }
  }

  predicate IsSeparator(word: string) {
    word != "" && word[0] == '|'
  }

  ghost predicate SeparatorFree(words: seq<string>) {
    forall w <- words :: !IsSeparator(w)
  }

  function Separators(words: seq<string>): (n: nat)
    ensures n <= |words|
    ensures n == 0 <==> SeparatorFree(words)
  {
    if words == [] then 0
    else
      var front, word := words[..|words| - 1], words[|words| - 1];
      assert words == front + [word];
      Separators(front) + if IsSeparator(word) then 1 else 0
  }

  /** The stages cut `words` at its separators and nowhere else: the last stage holds the words
      after the last separator, and the others partition the words before that separator. */
  ghost predicate Partition(words: seq<string>, stages: seq<Stage>)
    decreases |stages|
  {
    && |stages| > 0
    && var last := stages[|stages| - 1];
    && last.End() == |words|
    && SeparatorFree(words[last.start..])
    && if |stages| == 1 then last.start == 0
       else last.start > 0 && IsSeparator(words[last.start - 1])
            && Partition(words[..last.start - 1], stages[..|stages| - 1])
  }

  method GeneratePipeline(command: string, buildmode: bool)
    returns (words: seq<string>, stages: Option<seq<Stage>>)
    requires NulFree(command)
    ensures words == Words(command, 127)
    ensures stages.None? <==> buildmode && !SeparatorFree(words)
    ensures stages.Some? ==>
              && Partition(words, stages.value)
              && |stages.value| == Separators(words) + 1 <= 128
  {
    hide Words, Partition, SeparatorFree;
    var p, _ := SkipSpaces(command);
    SkippedSpaces(command, p);
    words := ParseLine(command[p..], MAX_LINE_WORDS);
    var done, last := [], Stage(0, 0);
    StartHere();
    assert words[..0] == [] && done + [last] == [Stage(0, 0)];
    for i := 0 to |words|
      invariant Partition(words[..i], done + [last])
      invariant |done| == Separators(words[..i])
      invariant buildmode ==> done == []
    {
      var seen := words[..i];
      assert words[..i + 1] == seen + [words[i]];
      if IsSeparator(words[i]) {
        if buildmode {
          SeparatorSeen(words, i);
          return words, None;
        }
        CutHere(seen, words[i], done, last);
        done, last := done + [last], Stage(i + 1, 0);
      } else {
        GrowLast(seen, words[i], done, last);
        last := last.(numWords := last.numWords + 1);
      }
    }
    assert words[..|words|] == words;
    stages := Some(done + [last]);
  }

  lemma SkippedSpaces(command: string, p: nat)
    requires NulFree(command) && p <= |command| && command[p..] == TrimLeft(command)
    ensures NulFree(command[p..])
    ensures forall room: nat :: Words(command[p..], room) == Words(command, room)
  {
    assert TrimLeft(TrimLeft(command)) == TrimLeft(command);
  }

  lemma StartHere()
    ensures Partition([], [Stage(0, 0)])
  {
  }

  lemma SeparatorSeen(words: seq<string>, i: nat)
    requires i < |words| && IsSeparator(words[i])
    ensures !SeparatorFree(words)
  {
    assert words[i] in words;
  }

  lemma CutHere(words: seq<string>, word: string, done: seq<Stage>, last: Stage)
    requires Partition(words, done + [last]) && IsSeparator(word)
    ensures Partition(words + [word], (done + [last]) + [Stage(|words| + 1, 0)])
  {
    assert (words + [word])[..|words|] == words;
    assert ((done + [last]) + [Stage(|words| + 1, 0)])[..|done| + 1] == done + [last];
  }

  lemma GrowLast(words: seq<string>, word: string, done: seq<Stage>, last: Stage)
    requires Partition(words, done + [last]) && !IsSeparator(word)
    ensures Partition(words + [word], done + [last.(numWords := last.numWords + 1)])
  {
    var longer := last.(numWords := last.numWords + 1);
    assert (done + [last])[|done|] == last;
    assert (words + [word])[last.start..] == words[last.start..] + [word];
    assert (done + [last])[..|done|] == done == (done + [longer])[..|done|];
    if last.start > 0 {
      assert (words + [word])[..last.start - 1] == words[..last.start - 1];
    }
  }

  /** The stages and the separators between them, put back together. */
  ghost function Rejoin(words: seq<string>, stages: seq<Stage>): seq<string>
    requires Partition(words, stages)
    decreases |stages|
  {
    var last := stages[|stages| - 1];
    (if |stages| == 1 then []
     else Rejoin(words[..last.start - 1], stages[..|stages| - 1]) + [words[last.start - 1]])
    + words[last.start..]
  }

  /** Splitting loses nothing. */
  lemma {:induction false} RejoinedStages(words: seq<string>, stages: seq<Stage>)
    requires Partition(words, stages)
    ensures Rejoin(words, stages) == words
    decreases |stages|
  {
    var last := stages[|stages| - 1];
    if |stages| > 1 {
      RejoinedStages(words[..last.start - 1], stages[..|stages| - 1]);
      assert words[..last.start - 1] + [words[last.start - 1]] == words[..last.start];
    }
  }

  /** The words outside the stages are exactly those that start with a pipe. */
  lemma {:induction false} SeparatorsStandBetween(words: seq<string>, stages: seq<Stage>, i: nat)
    requires Partition(words, stages) && i < |words|
    ensures (words[i] != "" && words[i][0] == '|') <==> forall s <- stages :: !(s.start <= i < s.End())
    decreases |stages|
  {
    var last := stages[|stages| - 1];
    assert last in stages && last.start <= |words|;
    var front := stages[..|stages| - 1];
    assert stages == front + [last];
    if i >= last.start {
      assert words[last.start..][i - last.start] == words[i] && words[i] in words[last.start..];
      assert last.start <= i < last.End() && !IsSeparator(words[i]);
    } else if i < last.start - 1 {
      SeparatorsStandBetween(words[..last.start - 1], front, i);
    } else {
      StagesWithin(words[..last.start - 1], front);
    }
  }

  lemma {:induction false} StagesWithin(words: seq<string>, stages: seq<Stage>)
    requires Partition(words, stages)
    ensures forall s <- stages :: s.End() <= |words|
    decreases |stages|
  {
    var last := stages[|stages| - 1];
    assert stages == stages[..|stages| - 1] + [last];
    if |stages| > 1 {
      StagesWithin(words[..last.start - 1], stages[..|stages| - 1]);
    }
  }

  /** There is only one way to split, so `Partition` says exactly what the splitter returns. */
  lemma {:induction false} PartitionIsUnique(words: seq<string>, a: seq<Stage>, b: seq<Stage>)
    requires Partition(words, a) && Partition(words, b)
    ensures a == b
    decreases |a|
  {
    var x, y := a[|a| - 1], b[|b| - 1];
    LastStart(words, a, b);
    LastStart(words, b, a);
    assert x == y;
    if |a| > 1 {
      PartitionIsUnique(words[..x.start - 1], a[..|a| - 1], b[..|b| - 1]);
    }
    assert a == a[..|a| - 1] + [x] && b == b[..|b| - 1] + [y];
  }

  lemma LastStart(words: seq<string>, a: seq<Stage>, b: seq<Stage>)
    requires Partition(words, a) && Partition(words, b)
    ensures a[|a| - 1].start <= b[|b| - 1].start
  {
    var x, y := a[|a| - 1].start, b[|b| - 1].start;
    assert forall k :: y <= k < |words| ==> words[k] == words[y..][k - y];
  }
}

/** The rules of option matching, flag by flag: which optargs a word may stand for, and how a run of
    the matcher goes on and ends. */
module OptargRules {
  import opened CStrings
  import opened OptargMatch

  // ----- Which optargs a word may stand for

  /** The privilege suffices, and the mode is the current one, the transient one or any (-1). */
  predicate Seen(env: Env, o: Optarg) {
    o.privilege <= env.privilege && o.mode in {-1, env.mode, env.transientMode}
  }

  predicate ByHyphen(o: Optarg, word: string) {
    Hyphenated in o.flags && "-" <= word
  }

  /** A flag is known by its validator, or by its exact name when it has none. */
  predicate ByFlag(o: Optarg, word: string) {
    OptionalFlag in o.flags && match o.validator { case Some(valid) => valid(word) case None => word == o.name }
  }

  predicate ByName(o: Optarg, word: string) {
    OptionalArgument in o.flags && word == o.name
  }

  predicate Decides(o: Optarg, word: string) {
    ByHyphen(o, word) || ByFlag(o, word) || ByName(o, word)
  }

  /** No visible required optarg stands from `i` to before `k`. */
  predicate Reached(env: Env, optargs: seq<Optarg>, i: nat, k: nat)
    requires k <= |optargs|
  {
    forall m :: i <= m < k && Seen(env, optargs[m]) ==> Argument !in optargs[m].flags
  }

  /** `k` is the first visible optarg from `i` on that decides for the word, and it is reached. */
  predicate Settles(env: Env, optargs: seq<Optarg>, i: nat, word: string, k: nat)
    requires k < |optargs|
  {
    && i <= k && Seen(env, optargs[k]) && Decides(optargs[k], word) && Reached(env, optargs, i, k)
    && forall m :: i <= m < k && Seen(env, optargs[m]) ==> !Decides(optargs[m], word)
  }

  predicate Unsettled(env: Env, optargs: seq<Optarg>, i: nat, word: string) {
    forall k | 0 <= k < |optargs| :: !Settles(env, optargs, i, word, k)
  }

  /** `k` may stand for the word: it is visible, reached, and required or abbreviated by the word. */
  predicate MayStand(env: Env, optargs: seq<Optarg>, i: nat, word: string, k: nat)
    requires k < |optargs|
  {
    && i <= k && Seen(env, optargs[k]) && Reached(env, optargs, i, k)
    && (Argument in optargs[k].flags || CasePrefix(word, optargs[k].name))
  }

  ghost predicate Increasing(s: seq<nat>) {
    forall j, k | 0 <= j < k < |s| :: s[j] < s[k]
  }

  /** The candidates of a word: an optarg that settles the matter stands alone; otherwise they are,
      in order, all that may stand for the word. */
  lemma CandidatesAre(env: Env, optargs: seq<Optarg>, i: nat, word: string)
    requires i <= |optargs|
    ensures var cs := Candidates(env, optargs, i, word, []);
            && (forall k | 0 <= k < |optargs| && Settles(env, optargs, i, word, k) :: cs == [k])
            && (Unsettled(env, optargs, i, word) ==>
                  && Increasing(cs)
                  && (forall k | 0 <= k < |optargs| :: k in cs <==> MayStand(env, optargs, i, word, k))
                  && (forall c <- cs :: c < |optargs|))
  {
    var extra := CandidatesFrom(env, optargs, i, word, []);
    assert [] + extra == extra;
  }

  lemma {:induction false} CandidatesFrom(env: Env, optargs: seq<Optarg>, i: nat, word: string, acc: seq<nat>)
    returns (extra: seq<nat>)
    requires i <= |optargs|
    ensures var cs := Candidates(env, optargs, i, word, acc);
            && (forall k | 0 <= k < |optargs| && Settles(env, optargs, i, word, k) :: cs == [k])
            && (Unsettled(env, optargs, i, word) ==> cs == acc + extra)
    ensures Increasing(extra)
    ensures forall k | 0 <= k < |optargs| :: k in extra <==> MayStand(env, optargs, i, word, k)
    ensures forall c <- extra :: i <= c < |optargs|
    decreases |optargs| - i
  {
    hide Decides, CasePrefix, Seen, Reached, Settles, MayStand, Unsettled, Candidates;
    assert acc + [] == acc;
    if i == |optargs| {
      NothingBeyond(env, optargs, word, acc);
      return [];
    }
    var o := optargs[i];
    var here := if MayStand(env, optargs, i, word, i) then [i] else [];
    Onward(env, optargs, i, word);
    CandidatesNext(env, optargs, i, word, acc, here);
    if Unsettled(env, optargs, i, word) {
      StaysUnsettled(env, optargs, i, word);
    }
    if Seen(env, o) && Argument in o.flags {
      return here;
    }
    var rest := CandidatesFrom(env, optargs, i + 1, word, acc + here);
    extra := here + rest;
    assert acc + here + rest == acc + extra;
    assert forall k :: 0 <= k < |rest| ==> rest[k] in rest;
  }

  lemma StaysUnsettled(env: Env, optargs: seq<Optarg>, i: nat, word: string)
    requires i < |optargs| && Unsettled(env, optargs, i, word)
    ensures !Settles(env, optargs, i, word, i)
    ensures !(Seen(env, optargs[i]) && Argument in optargs[i].flags) ==> Unsettled(env, optargs, i + 1, word)
  {
    hide Decides, Seen, Settles, MayStand;
    Onward(env, optargs, i, word);
    assert !Settles(env, optargs, i, word, i);
    if !(Seen(env, optargs[i]) && Argument in optargs[i].flags) {
      var next := i + 1;
      forall k | 0 <= k < |optargs|
        ensures !Settles(env, optargs, next, word, k)
      {
        assert !Settles(env, optargs, i, word, k);
      }
    }
  }

  lemma NothingBeyond(env: Env, optargs: seq<Optarg>, word: string, acc: seq<nat>)
    ensures Candidates(env, optargs, |optargs|, word, acc) == acc
    ensures forall k | 0 <= k < |optargs| ::
              !Settles(env, optargs, |optargs|, word, k) && !MayStand(env, optargs, |optargs|, word, k)
  {
  }

  /** The candidates from `i` on, in the words of the rules. */
  lemma CandidatesNext(env: Env, optargs: seq<Optarg>, i: nat, word: string, acc: seq<nat>, here: seq<nat>)
    requires i < |optargs|
    requires here == if MayStand(env, optargs, i, word, i) then [i] else []
    ensures Candidates(env, optargs, i, word, acc)
         == if Settles(env, optargs, i, word, i) then [i]
            else if Seen(env, optargs[i]) && Argument in optargs[i].flags then acc + here
            else Candidates(env, optargs, i + 1, word, acc + here)
  {
    SameRules(env, optargs[i], word);
    Onward(env, optargs, i, word);
    hide Decides, CasePrefix, Decisive, Seen, Visible, Settles, MayStand;
    assert acc + [] == acc;
  }

  lemma SameRules(env: Env, o: Optarg, word: string)
    ensures Visible(env, o) == Seen(env, o)
    ensures Decisive(o, word) == Decides(o, word)
    ensures Possible(o, word) == (Argument in o.flags || CasePrefix(word, o.name))
  {
  }

  /** How the rules from `i` on follow from those from `i + 1` on. */
  lemma Onward(env: Env, optargs: seq<Optarg>, i: nat, word: string)
    requires i < |optargs|
    ensures var o := optargs[i];
            && (Settles(env, optargs, i, word, i) <==> Seen(env, o) && Decides(o, word))
            && (MayStand(env, optargs, i, word, i) <==> Seen(env, o) && (Argument in o.flags || CasePrefix(word, o.name)))
            && !Settles(env, optargs, i + 1, word, i) && !MayStand(env, optargs, i + 1, word, i)
            && (forall k | 0 <= k < |optargs| && k != i ::
                  && (MayStand(env, optargs, i, word, k) <==>
                        !(Seen(env, o) && Argument in o.flags) && MayStand(env, optargs, i + 1, word, k))
                  && (Settles(env, optargs, i, word, k) <==>
                        !(Seen(env, o) && (Argument in o.flags || Decides(o, word))) && Settles(env, optargs, i + 1, word, k)))
  {
    hide Decides, CasePrefix, Seen;
  }

  // ----- How a run goes on and ends

  /** Words joined by single spaces. */
  lemma {:induction false} JoinWordsAppend(a: seq<string>, b: seq<string>)
    requires a != [] && b != []
    ensures JoinWords(a + b) == JoinWords(a) + " " + JoinWords(b)
    ensures |a| == 1 ==> JoinWords(a) == a[0]
  {
    if |a| == 1 {
      assert (a + b)[1..] == b;
    } else {
      assert (a + b)[1..] == a[1..] + b;
      JoinWordsAppend(a[1..], b);
      assert a[0] + " " + (JoinWords(a[1..]) + " " + JoinWords(b)) == a[0] + " " + JoinWords(a[1..]) + " " + JoinWords(b);
    }
  }

  /** The value of an optional argument is the next word of the line. */
  predicate HasValue(o: Optarg, words: seq<string>, w: nat) {
    OptionalArgument in o.flags ==> w + 1 < |words|
  }

  function Value(o: Optarg, words: seq<string>, w: nat): string
    requires w < |words| && HasValue(o, words, w)
  {
    if OptionalArgument in o.flags then words[w + 1] else words[w]
  }

  predicate Refused(o: Optarg, words: seq<string>, w: nat)
    requires w < |words| && HasValue(o, words, w)
  {
    o.validator.Some? && !o.validator.value(Value(o, words, w))
  }

  /** The pairs once `o` has taken its words. */
  function Kept(o: Optarg, words: seq<string>, num: nat, w: nat, found: seq<Pair>): seq<Pair>
    requires w < num <= |words| && HasValue(o, words, w)
  {
    if RemainderOfLine in o.flags then SetPair(found, o.name, JoinWords(words[w..num]), false)
    else SetPair(found, o.name, Value(o, words, w), Multiple in o.flags)
  }

  predicate StartsBuildmode(env: Env, o: Optarg, num: nat, w: nat) {
    && AllowBuildmode in o.flags && !env.disallowBuildmode
    && (|| (w == num - 1 && (OptionalFlag in o.flags || Argument in o.flags))
        || (w == num - 2 && OptionalArgument in o.flags))
  }

  /** Where the matcher stands: the optargs still to come, the next word, and the pairs so far. */
  datatype Place = Place(opt: nat, word: nat, found: seq<Pair>)

  predicate Open(optargs: seq<Optarg>, num: nat, p: Place) {
    p.opt < |optargs| && p.word < num
  }

  /** The one optarg that the next word can stand for. */
  function Sole(env: Env, optargs: seq<Optarg>, words: seq<string>, num: nat, p: Place): Option<Optarg>
    requires num <= |words| && Open(optargs, num, p)
  {
    var cs := Candidates(env, optargs, p.opt, words[p.word], []);
    if |cs| == 1 then assert cs[0] in cs; Some(optargs[cs[0]]) else None
  }

  /** The next word is for one optarg, and it is a value that this one takes. */
  predicate Takes(env: Env, optargs: seq<Optarg>, words: seq<string>, num: nat, p: Place)
    requires num <= |words|
  {
    && Open(optargs, num, p)
    && var sole := Sole(env, optargs, words, num, p);
      sole.Some? && HasValue(sole.value, words, p.word) && !Refused(sole.value, words, p.word)
  }

  /** The matcher goes on from `a` to `b`: the next word is for one optarg, which takes one word, or
      two with its name before the value; a required one is passed for good. */
  predicate Moves(env: Env, optargs: seq<Optarg>, words: seq<string>, num: nat, a: Place, b: Place)
    requires num <= |words|
  {
    && Takes(env, optargs, words, num, a)
    && var o := Sole(env, optargs, words, num, a).value;
      && DoNotRecord !in o.flags && !StartsBuildmode(env, o, num, a.word)
      && b.found == Kept(o, words, num, a.word, a.found)
      && b.word == a.word + (if OptionalArgument in o.flags then 2 else 1)
      && b.opt == if Argument in o.flags
                  then Candidates(env, optargs, a.opt, words[a.word], [])[0] + 1 else a.opt
  }

  /** The matcher stops at `p` with this outcome. */
  predicate Stops(env: Env, optargs: seq<Optarg>, words: seq<string>, num: nat, p: Place, r: Outcome)
    requires num <= |words|
  {
    && r.firstUnmatched == p.word
    && (!r.status.EnterBuildmode? ==> r.found == p.found)
    && (r.status in {Ok, MissingArgument} ==>
          && (Open(optargs, num, p) ==>
                || Candidates(env, optargs, p.opt, words[p.word], []) == []
                || (Takes(env, optargs, words, num, p)
                    && DoNotRecord in Sole(env, optargs, words, num, p).value.flags))
          && (r.status.Ok? <==>
                forall j :: p.opt <= j < |optargs| && Seen(env, optargs[j]) && DoNotRecord !in optargs[j].flags ==>
                  Argument !in optargs[j].flags && TransientMode !in optargs[j].flags))
    && (r.status.Ambiguous? ==>
          Open(optargs, num, p) && |Candidates(env, optargs, p.opt, words[p.word], [])| > 1)
    && (r.status.MissingValue? ==>
          && Open(optargs, num, p) && Sole(env, optargs, words, num, p).Some? && p.word + 1 == |words|
          && OptionalArgument in Sole(env, optargs, words, num, p).value.flags)
    && (r.status.Error? ==>
          && Open(optargs, num, p) && Sole(env, optargs, words, num, p).Some?
          && HasValue(Sole(env, optargs, words, num, p).value, words, p.word)
          && Refused(Sole(env, optargs, words, num, p).value, words, p.word))
    && (r.status.EnterBuildmode? ==>
          && Takes(env, optargs, words, num, p)
          && var o := Sole(env, optargs, words, num, p).value;
            && DoNotRecord !in o.flags && StartsBuildmode(env, o, num, p.word)
            && r.found == Kept(o, words, num, p.word, p.found))
  }

  ghost predicate IsRun(env: Env, optargs: seq<Optarg>, words: seq<string>, num: nat, places: seq<Place>)
    requires num <= |words|
  {
    forall k | 0 <= k < |places| - 1 :: Moves(env, optargs, words, num, places[k], places[k + 1])
  }

  /** Matching is a run by the rules: from where it starts it moves while it can, and it stops with
      the outcome that the place it reached calls for. */
  lemma {:induction false} MatchRuns(env: Env, optargs: seq<Optarg>, words: seq<string>, num: nat,
                                     i: nat, w: nat, found: seq<Pair>)
    returns (places: seq<Place>)
    requires i <= |optargs| && num <= |words|
    ensures places != [] && places[0] == Place(i, w, found)
    ensures IsRun(env, optargs, words, num, places)
    ensures Stops(env, optargs, words, num, places[|places| - 1], Match(env, optargs, words, num, i, w, found))
    decreases num - w
  {
    hide Stops, Moves, Match;
    var p := Place(i, w, found);
    var next := StopsOrMoves(env, optargs, words, num, p);
    if next.None? {
      return [p];
    }
    var rest := MatchRuns(env, optargs, words, num, next.value.opt, next.value.word, next.value.found);
    places := [p] + rest;
    assert forall k | 0 <= k < |places| - 1 :: places[k + 1] == rest[k] && (k > 0 ==> places[k] == rest[k - 1]);
  }

  lemma StopsOrMoves(env: Env, optargs: seq<Optarg>, words: seq<string>, num: nat, p: Place)
    returns (next: Option<Place>)
    requires p.opt <= |optargs| && num <= |words|
    ensures next.None? ==> Stops(env, optargs, words, num, p, Match(env, optargs, words, num, p.opt, p.word, p.found))
    ensures next.Some? ==>
              var q := next.value;
              && p.word < q.word && p.word < num && q.opt <= |optargs|
              && Moves(env, optargs, words, num, p, q)
              && Match(env, optargs, words, num, p.opt, p.word, p.found)
                 == Match(env, optargs, words, num, q.opt, q.word, q.found)
  {
    hide Match, Candidates, JoinWords, SetPair, Seen, Turn;
    FinishRule(env, optargs, p.opt, p.found, p.word);
    if !Open(optargs, num, p) {
      MatchEnds(env, optargs, words, num, p.opt, p.word, p.found);
      return None;
    }
    var cs := Candidates(env, optargs, p.opt, words[p.word], []);
    if |cs| == 0 {
      MatchEnds(env, optargs, words, num, p.opt, p.word, p.found);
      return None;
    }
    MatchTurns(env, optargs, words, num, p.opt, p.word, p.found);
    if |cs| > 1 {
      return None;
    }
    TurnRule(env, optargs, words, num, p, cs[0]);
    var o := optargs[cs[0]];
    if HasValue(o, words, p.word) && !Refused(o, words, p.word) && DoNotRecord !in o.flags
       && !StartsBuildmode(env, o, num, p.word) {
      next := Some(Place(if Argument in o.flags then cs[0] + 1 else p.opt,
                         p.word + (if OptionalArgument in o.flags then 2 else 1),
                         Kept(o, words, num, p.word, p.found)));
    } else {
      next := None;
    }
  }

  /** What a turn for optarg `c` comes to. */
  lemma TurnRule(env: Env, optargs: seq<Optarg>, words: seq<string>, num: nat, p: Place, c: nat)
    requires num <= |words| && Open(optargs, num, p) && c < |optargs|
    ensures var o, r := optargs[c], Turn(env, optargs, words, num, p.opt, p.word, p.found, c);
            if !HasValue(o, words, p.word) then r == Outcome(MissingValue, p.found, p.word)
            else if Refused(o, words, p.word) then r == Outcome(Error, p.found, p.word)
            else if DoNotRecord in o.flags then r == Finish(env, optargs, p.opt, p.found, p.word)
            else
              var found := Kept(o, words, num, p.word, p.found);
              if StartsBuildmode(env, o, num, p.word) then r == Outcome(EnterBuildmode, found, p.word)
              else r == Match(env, optargs, words, num, if Argument in o.flags then c + 1 else p.opt,
                              p.word + (if OptionalArgument in o.flags then 2 else 1), found)
  {
    hide Match, Finish, JoinWords, SetPair;
  }

  lemma FinishRule(env: Env, optargs: seq<Optarg>, i: nat, found: seq<Pair>, w: nat)
    ensures var r := Finish(env, optargs, i, found, w);
            && r.found == found && r.firstUnmatched == w
            && r.status in {Ok, MissingArgument}
            && (r.status.Ok? <==>
                  forall j :: i <= j < |optargs| && Seen(env, optargs[j]) && DoNotRecord !in optargs[j].flags ==>
                    Argument !in optargs[j].flags && TransientMode !in optargs[j].flags)
  {
    forall j | i <= j < |optargs|
      ensures Visible(env, optargs[j]) == Seen(env, optargs[j])
    {
      SameRules(env, optargs[j], "");
    }
  }
}

/** What a successful match means: every word it consumed is accounted for, and every required
    optarg was given a word that its validator accepted. */
module OptargCompleteness {
  import opened CStrings
  import opened OptargMatch

  /** Optarg number `opt` was recorded from word number `word` on. */
  datatype Event = Event(opt: nat, word: nat)

  /** Optarg `opt` took the words from `word` on: it is visible and its validator accepted them. */
  ghost predicate Sound(env: Env, optargs: seq<Optarg>, words: seq<string>, num: nat, e: Event) {
    && e.opt < |optargs| && e.word < num <= |words|
    && Visible(env, optargs[e.opt])
    && ValueAt(optargs[e.opt], words, e.word).Some?
    && optargs[e.opt].Accepts(ValueAt(optargs[e.opt], words, e.word).value)
    && DoNotRecord !in optargs[e.opt].flags
  }

  /** The text that the event stores. */
  function Stored(optargs: seq<Optarg>, words: seq<string>, num: nat, e: Event): string
    requires e.opt < |optargs| && e.word < num <= |words|
    requires ValueAt(optargs[e.opt], words, e.word).Some?
  {
    if RemainderOfLine in optargs[e.opt].flags then JoinWords(words[e.word..num])
    else ValueAt(optargs[e.opt], words, e.word).value
  }

  /** The events tile the words from `from` to `to`. */
  ghost predicate Tiles(optargs: seq<Optarg>, events: seq<Event>, from: nat, to: nat) {
    if events == [] then from == to
    else
      && events[0].word == from && events[0].opt < |optargs|
      && Tiles(optargs, events[1..], from + Width(optargs[events[0].opt]), to)
  }

  /** The pairs after the events, in order. */
  ghost function After(env: Env, optargs: seq<Optarg>, words: seq<string>, num: nat,
                       events: seq<Event>, found: seq<Pair>): seq<Pair>
    requires forall e <- events :: Sound(env, optargs, words, num, e)
  {
    if events == [] then found
    else
      var e := events[0];
      assert e in events && forall x <- events[1..] :: x in events;
      assert Sound(env, optargs, words, num, e);
      var value := ValueAt(optargs[e.opt], words, e.word).value;
      After(env, optargs, words, num, events[1..], Recorded(optargs[e.opt], words, num, e.word, value, found))
  }

  /** The visible required optargs from `i` on that are recorded, in order. */
  function Required(env: Env, optargs: seq<Optarg>, i: nat): seq<nat>
    requires i <= |optargs|
    decreases |optargs| - i
  {
    if i == |optargs| then []
    else if Visible(env, optargs[i]) && Argument in optargs[i].flags && DoNotRecord !in optargs[i].flags then
      [i] + Required(env, optargs, i + 1)
    else Required(env, optargs, i + 1)
  }

  /** The required optargs among the events, in the order in which they were recorded. */
  function Arguments(optargs: seq<Optarg>, events: seq<Event>): seq<nat>
    requires forall e <- events :: e.opt < |optargs|
  {
    if events == [] then []
    else
      assert events[0] in events && forall e <- events[1..] :: e in events;
      (if Argument in optargs[events[0].opt].flags then [events[0].opt] else [])
      + Arguments(optargs, events[1..])
  }

  // ----- Candidates never skip a required optarg

  lemma {:induction false} NoRequiredBefore(env: Env, optargs: seq<Optarg>, i: nat, word: string, acc: seq<nat>)
    requires i <= |optargs|
    requires forall c <- acc :: c < i
    ensures var cs := Candidates(env, optargs, i, word, acc);
            && (forall c <- cs, j | i <= j < c :: !(Visible(env, optargs[j]) && Argument in optargs[j].flags))
            && (cs == [] ==> forall j | i <= j < |optargs| :: !(Visible(env, optargs[j]) && Argument in optargs[j].flags))
    decreases |optargs| - i
  {
    hide CasePrefix, Decisive;
    if i < |optargs| {
      var acc' := if Visible(env, optargs[i]) && Possible(optargs[i], word) then acc + [i] else acc;
      NoRequiredBefore(env, optargs, i + 1, word, acc');
    }
  }

  lemma {:induction false} RequiredSkips(env: Env, optargs: seq<Optarg>, i: nat, c: nat)
    requires i <= c <= |optargs|
    requires forall j | i <= j < c :: !(Visible(env, optargs[j]) && Argument in optargs[j].flags)
    ensures Required(env, optargs, i) == Required(env, optargs, c)
    decreases c - i
  {
    if i < c {
      RequiredSkips(env, optargs, i + 1, c);
    }
  }

  lemma {:induction false} NoneDemandedNoneRequired(env: Env, optargs: seq<Optarg>, i: nat)
    requires i <= |optargs| && NothingDemanded(env, optargs, i)
    ensures Required(env, optargs, i) == []
    decreases |optargs| - i
  {
    if i < |optargs| {
      NoneDemandedNoneRequired(env, optargs, i + 1);
      assert !Demanded(env, optargs[i]);
    }
  }

  // ----- The account of a successful match

  /** Everything a successful match promises about the words it consumed. */
  ghost predicate Accounts(env: Env, optargs: seq<Optarg>, words: seq<string>, num: nat,
                           i: nat, w: nat, found: seq<Pair>, events: seq<Event>)
    requires i <= |optargs| && num <= |words|
  {
    var r := Match(env, optargs, words, num, i, w, found);
    && (forall e <- events :: Sound(env, optargs, words, num, e))
    && Tiles(optargs, events, w, r.firstUnmatched)
    && r.found == After(env, optargs, words, num, events, found)
    && Arguments(optargs, events) == Required(env, optargs, i)
  }

  lemma AccountOfNothing(env: Env, optargs: seq<Optarg>, words: seq<string>, num: nat,
                         i: nat, w: nat, found: seq<Pair>)
    requires i <= |optargs| && num <= |words|
    requires Match(env, optargs, words, num, i, w, found) == Finish(env, optargs, i, found, w)
    requires Match(env, optargs, words, num, i, w, found).status.Ok?
    ensures Accounts(env, optargs, words, num, i, w, found, [])
  {
    hide Match;
    NoneDemandedNoneRequired(env, optargs, i);
  }

  lemma AccountOfOne(env: Env, optargs: seq<Optarg>, words: seq<string>, num: nat,
                     i: nat, w: nat, found: seq<Pair>, e: Event, i': nat, found': seq<Pair>, events: seq<Event>)
    requires i <= |optargs| && num <= |words| && e.word == w
    requires Sound(env, optargs, words, num, e)
    requires i <= e.opt
    requires forall j | i <= j < e.opt :: !(Visible(env, optargs[j]) && Argument in optargs[j].flags)
    requires i' == if Argument in optargs[e.opt].flags then e.opt + 1 else i
    requires found' == Recorded(optargs[e.opt], words, num, w, ValueAt(optargs[e.opt], words, w).value, found)
    requires Match(env, optargs, words, num, i, w, found)
          == Match(env, optargs, words, num, i', w + Width(optargs[e.opt]), found')
    requires Accounts(env, optargs, words, num, i', w + Width(optargs[e.opt]), found', events)
    ensures Accounts(env, optargs, words, num, i, w, found, [e] + events)
  {
    hide Match, Visible, SetPair, JoinWords, ValueAt, Recorded;
    assert ([e] + events)[1..] == events;
    if Argument in optargs[e.opt].flags {
      RequiredSkips(env, optargs, i, e.opt);
    }
  }

  /** A match that ends well consumed its words by events that are sound, tile the words, explain
      the pairs, and hit the visible required optargs exactly once each, in order. */
  lemma {:induction false} MatchAccounts(env: Env, optargs: seq<Optarg>, words: seq<string>, num: nat,
                                         i: nat, w: nat, found: seq<Pair>)
    returns (events: seq<Event>)
    requires i <= |optargs| && num <= |words|
    requires Match(env, optargs, words, num, i, w, found).status.Ok?
    ensures Accounts(env, optargs, words, num, i, w, found, events)
    decreases num - w
  {
    hide Candidates, NothingDemanded, JoinWords, SetPair, IsLastWord, Accounts;
    if i == |optargs| || w >= num {
      AccountOfNothing(env, optargs, words, num, i, w, found);
      return [];
    }
    var candidates := Candidates(env, optargs, i, words[w], []);
    NoRequiredBefore(env, optargs, i, words[w], []);
    if |candidates| == 0 {
      AccountOfNothing(env, optargs, words, num, i, w, found);
      return [];
    }
    assert |candidates| == 1 && candidates[0] in candidates;
    var c := candidates[0];
    var o := optargs[c];
    if DoNotRecord in o.flags {
      AccountOfNothing(env, optargs, words, num, i, w, found);
      return [];
    }
    var found' := Recorded(o, words, num, w, ValueAt(o, words, w).value, found);
    var i' := if Argument in o.flags then c + 1 else i;
    events := MatchAccounts(env, optargs, words, num, i', w + Width(o), found');
    AccountOfOne(env, optargs, words, num, i, w, found, Event(c, w), i', found', events);
    events := [Event(c, w)] + events;
  }

  // ----- The pairs that a successful match leaves

  /** No visible optarg after `j` has the name of `j`, so none can overwrite its pair. */
  ghost predicate LastOfName(env: Env, optargs: seq<Optarg>, j: nat)
    requires j < |optargs|
  {
    forall k | j < k < |optargs| && Visible(env, optargs[k]) :: optargs[k].name != optargs[j].name
  }

  ghost predicate HasPair(found: seq<Pair>, name: string) {
    exists p <- found :: p.name == name
  }

  lemma {:induction false} SetPairStores(found: seq<Pair>, name: string, value: string, multiple: bool)
    ensures Pair(name, value) in SetPair(found, name, value, multiple)
    ensures forall p <- found :: p.name != name ==> p in SetPair(found, name, value, multiple)
    ensures forall n :: HasPair(found, n) ==> HasPair(SetPair(found, name, value, multiple), n)
  {
    if found != [] && !(found[0].name == name && !multiple) {
      SetPairStores(found[1..], name, value, multiple);
    }
  }

  lemma RecordedKeeps(o: Optarg, words: seq<string>, num: nat, w: nat, value: string, found: seq<Pair>, p: Pair)
    requires w < num <= |words|
    requires p in found && p.name != o.name
    ensures p in Recorded(o, words, num, w, value, found)
  {
    hide SetPair, JoinWords;
    SetPairStores(found, o.name, JoinWords(words[w..num]), false);
    SetPairStores(found, o.name, value, Multiple in o.flags);
  }

  /** Pairs of a name that no remaining optarg has are still there after matching. */
  lemma {:induction false} MatchKeeps(env: Env, optargs: seq<Optarg>, words: seq<string>, num: nat,
                                      i: nat, w: nat, found: seq<Pair>, p: Pair)
    requires i <= |optargs| && num <= |words|
    requires forall k | i <= k < |optargs| && Visible(env, optargs[k]) :: optargs[k].name != p.name
    requires p in found
    ensures p in Match(env, optargs, words, num, i, w, found).found
    decreases num - w
  {
    hide Candidates, NothingDemanded, IsLastWord, Recorded, Visible;
    if i < |optargs| && w < num {
      var candidates := Candidates(env, optargs, i, words[w], []);
      if |candidates| == 1 {
        assert candidates[0] in candidates;
        var o := optargs[candidates[0]];
        var value := ValueAt(o, words, w);
        if value.Some? && o.Accepts(value.value) && DoNotRecord !in o.flags {
          RecordedKeeps(o, words, num, w, value.value, found, p);
          var found' := Recorded(o, words, num, w, value.value, found);
          MatchKeeps(env, optargs, words, num, if Argument in o.flags then candidates[0] + 1 else i,
                     w + Width(o), found', p);
        }
      }
    }
  }

  /** A name that has a pair keeps one. */
  lemma {:induction false} MatchKeepsName(env: Env, optargs: seq<Optarg>, words: seq<string>, num: nat,
                                          i: nat, w: nat, found: seq<Pair>, name: string)
    requires i <= |optargs| && num <= |words| && HasPair(found, name)
    ensures HasPair(Match(env, optargs, words, num, i, w, found).found, name)
    decreases num - w
  {
    hide Candidates, NothingDemanded, IsLastWord, Recorded, Visible, HasPair;
    if i < |optargs| && w < num {
      var candidates := Candidates(env, optargs, i, words[w], []);
      if |candidates| == 1 {
        assert candidates[0] in candidates;
        var o := optargs[candidates[0]];
        var value := ValueAt(o, words, w);
        if value.Some? && o.Accepts(value.value) && DoNotRecord !in o.flags {
          RecordedKeepsName(o, words, num, w, value.value, found, name);
          var found' := Recorded(o, words, num, w, value.value, found);
          MatchKeepsName(env, optargs, words, num, if Argument in o.flags then candidates[0] + 1 else i,
                         w + Width(o), found', name);
        }
      }
    }
  }

  lemma RecordedKeepsName(o: Optarg, words: seq<string>, num: nat, w: nat, value: string, found: seq<Pair>, name: string)
    requires w < num <= |words| && HasPair(found, name)
    ensures HasPair(Recorded(o, words, num, w, value, found), name)
  {
    hide SetPair, JoinWords, HasPair;
    SetPairStores(found, o.name, JoinWords(words[w..num]), false);
    SetPairStores(found, o.name, value, Multiple in o.flags);
  }

  lemma RecordedIsKept(env: Env, optargs: seq<Optarg>, words: seq<string>, num: nat, found: seq<Pair>, e: Event)
    requires Sound(env, optargs, words, num, e)
    ensures var o := optargs[e.opt];
            var found' := Recorded(o, words, num, e.word, ValueAt(o, words, e.word).value, found);
            var r := Match(env, optargs, words, num, e.opt + 1, e.word + Width(o), found');
            && HasPair(r.found, o.name)
            && (LastOfName(env, optargs, e.opt) ==> Pair(o.name, Stored(optargs, words, num, e)) in r.found)
  {
    hide Match, Visible, JoinWords, SetPair;
    var o := optargs[e.opt];
    var value := ValueAt(o, words, e.word).value;
    var found' := Recorded(o, words, num, e.word, value, found);
    SetPairStores(found, o.name, JoinWords(words[e.word..num]), false);
    SetPairStores(found, o.name, value, Multiple in o.flags);
    var pair := Pair(o.name, Stored(optargs, words, num, e));
    assert pair in found' && HasPair(found', o.name);
    MatchKeepsName(env, optargs, words, num, e.opt + 1, e.word + Width(o), found', o.name);
    if LastOfName(env, optargs, e.opt) {
      MatchKeeps(env, optargs, words, num, e.opt + 1, e.word + Width(o), found', pair);
    }
  }

  /** When parsing for execution ends well, every visible required optarg that is recorded took
      words that its validator accepted and its name has a pair; the pair is the one stored from
      those words unless a later visible optarg has the same name. */
  lemma {:induction false} RequiredOptargsHavePairs(env: Env, optargs: seq<Optarg>, words: seq<string>, num: nat,
                                                    i: nat, w: nat, found: seq<Pair>, j: nat)
    returns (e: Event)
    requires num <= |words| && i <= j < |optargs|
    requires Match(env, optargs, words, num, i, w, found).status.Ok?
    requires Visible(env, optargs[j]) && Argument in optargs[j].flags && DoNotRecord !in optargs[j].flags
    ensures e.opt == j && w <= e.word && Sound(env, optargs, words, num, e)
    ensures var r := Match(env, optargs, words, num, i, w, found);
            && HasPair(r.found, optargs[j].name)
            && (LastOfName(env, optargs, j) ==> Pair(optargs[j].name, Stored(optargs, words, num, e)) in r.found)
    decreases num - w
  {
    hide Candidates, IsLastWord, Visible, Recorded, Stored, HasPair, LastOfName;
    assert Demanded(env, optargs[j]);
    assert i < |optargs| && w < num;
    var candidates := Candidates(env, optargs, i, words[w], []);
    NoRequiredBefore(env, optargs, i, words[w], []);
    assert |candidates| == 1 && candidates[0] in candidates;
    var c := candidates[0];
    var o := optargs[c];
    var value := ValueAt(o, words, w).value;
    var found' := Recorded(o, words, num, w, value, found);
    if c == j {
      e := Event(j, w);
      RecordedIsKept(env, optargs, words, num, found, e);
    } else {
      e := RequiredOptargsHavePairs(env, optargs, words, num, if Argument in o.flags then c + 1 else i,
                                    w + Width(o), found', j);
    }
  }

  /** The exception is real: of two required optargs of one name, only the second keeps its value. */
  lemma SameNameOverwrites(env: Env, o: Optarg, first: string, second: string)
    requires Visible(env, o) && env.disallowBuildmode
    requires o.flags == {Argument} && o.validator.None?
    ensures Match(env, [o, o], [first, second], 2, 0, 0, []) == Outcome(Ok, [Pair(o.name, second)], 2)
  {
    hide Visible, CasePrefix;
    assert Candidates(env, [o, o], 0, first, []) == [0];
    assert Candidates(env, [o, o], 1, second, []) == [1];
    assert Match(env, [o, o], [first, second], 2, 1, 1, [Pair(o.name, first)])
        == Match(env, [o, o], [first, second], 2, 2, 2, [Pair(o.name, second)]);
  }
}

/** The name/value pairs found for a command: an ordered multimap that is set, unset and read in
    insertion order (`cli_set_optarg_value`, `cli_int_unset_optarg_value`, `cli_get_optarg_value`). */
module FoundOptargs {
  import opened CStrings
  import opened OptargMatch

  // ----- The multimap

  /** The values of exactly this name, in insertion order. */
  function ValuesOf(found: seq<Pair>, name: string): seq<string> {
    if found == [] then []
    else (if found[0].name == name then [found[0].value] else []) + ValuesOf(found[1..], name)
  }

  function Names(found: seq<Pair>): (r: seq<string>)
    ensures |r| == |found| && forall i :: 0 <= i < |r| ==> r[i] == found[i].name
  {
    if found == [] then [] else [found[0].name] + Names(found[1..])
  }

  lemma ValuesOfFirst(p: Pair, rest: seq<Pair>, name: string)
    ensures ValuesOf([p] + rest, name) == (if p.name == name then [p.value] else []) + ValuesOf(rest, name)
    ensures Names([p] + rest) == [p.name] + Names(rest)
  {
    assert ([p] + rest)[1..] == rest;
  }

  lemma SetPairFirst(p: Pair, rest: seq<Pair>, name: string, value: string, multiple: bool)
    ensures SetPair([p] + rest, name, value, multiple)
         == if p.name == name && !multiple then [Pair(name, value)] + rest
            else [p] + SetPair(rest, name, value, multiple)
    ensures SetPair([], name, value, multiple) == [Pair(name, value)] + []
  {
    assert ([p] + rest)[1..] == rest;
  }

  /** Setting a value overwrites the first one of that name or, when several are allowed or there is
      none yet, adds one at the end; it touches no other name. */
  lemma {:induction false} SetRefines(found: seq<Pair>, name: string, value: string, multiple: bool, other: string)
    ensures var before, after := ValuesOf(found, name), SetPair(found, name, value, multiple);
            && ValuesOf(after, name) == (if multiple || before == [] then before + [value] else [value] + before[1..])
            && (other != name ==> ValuesOf(after, other) == ValuesOf(found, other))
            && Names(after) == (if multiple || before == [] then Names(found) + [name] else Names(found))
  {
    NoValues(name);
    NoValues(other);
    hide ValuesOf, Names, SetPair;
    if found == [] {
      SetPairFirst(Pair(name, value), [], name, value, multiple);
      ValuesOfFirst(Pair(name, value), [], name);
      ValuesOfFirst(Pair(name, value), [], other);
    } else {
      var p, rest := found[0], found[1..];
      assert found == [p] + rest;
      SetPairFirst(p, rest, name, value, multiple);
      ValuesOfFirst(p, rest, name);
      ValuesOfFirst(p, rest, other);
      if p.name == name && !multiple {
        ValuesOfFirst(Pair(name, value), rest, name);
        ValuesOfFirst(Pair(name, value), rest, other);
      } else {
        SetRefines(rest, name, value, multiple, other);
        SetRefinesFirst(p, rest, SetPair(rest, name, value, multiple), name, value, multiple, other);
      }
    }
  }

  lemma SetRefinesFirst(p: Pair, rest: seq<Pair>, after: seq<Pair>, name: string, value: string, multiple: bool,
                        other: string)
    requires p.name == name ==> multiple
    requires var before := ValuesOf(rest, name);
             && ValuesOf(after, name) == (if multiple || before == [] then before + [value] else [value] + before[1..])
             && (other != name ==> ValuesOf(after, other) == ValuesOf(rest, other))
             && Names(after) == (if multiple || before == [] then Names(rest) + [name] else Names(rest))
    ensures var before := ValuesOf([p] + rest, name);
            && ValuesOf([p] + after, name) == (if multiple || before == [] then before + [value] else [value] + before[1..])
            && (other != name ==> ValuesOf([p] + after, other) == ValuesOf([p] + rest, other))
            && Names([p] + after) == (if multiple || before == [] then Names([p] + rest) + [name] else Names([p] + rest))
  {
    hide ValuesOf, Names;
    ValuesOfFirst(p, rest, name);
    ValuesOfFirst(p, rest, other);
    ValuesOfFirst(p, after, name);
    ValuesOfFirst(p, after, other);
  }

  lemma NoValues(name: string)
    ensures ValuesOf([], name) == [] && Names([]) == []
  {
  }

  /** Where the search for the name stops, the pair is overwritten or appended. */
  lemma {:induction false} SetPairAt(found: seq<Pair>, name: string, value: string, multiple: bool, i: nat)
    requires i <= |found|
    requires forall k :: 0 <= k < i ==> found[k].name != name || multiple
    ensures i == |found| ==> SetPair(found, name, value, multiple) == found + [Pair(name, value)]
    ensures i < |found| && found[i].name == name && !multiple ==>
              SetPair(found, name, value, multiple) == found[i := Pair(name, value)]
  {
    if i > 0 {
      SetPairAt(found[1..], name, value, multiple, i - 1);
      assert found == [found[0]] + found[1..];
    }
  }

  lemma {:induction false} ValuesOfAppend(a: seq<Pair>, b: seq<Pair>, name: string)
    ensures ValuesOf(a + b, name) == ValuesOf(a, name) + ValuesOf(b, name)
  {
    if a == [] {
      assert a + b == b;
    } else {
      assert (a + b)[1..] == a[1..] + b;
      ValuesOfAppend(a[1..], b, name);
    }
  }

  lemma {:induction false} NoPairNoValues(found: seq<Pair>, name: string)
    requires forall p <- found :: p.name != name
    ensures ValuesOf(found, name) == []
  {
    if found != [] {
      assert found[0] in found && forall p <- found[1..] :: p in found;
      NoPairNoValues(found[1..], name);
    }
  }

  /** A pair occurs as often as its value among the values of its name. */
  lemma {:induction false} PairCount(found: seq<Pair>, p: Pair)
    ensures multiset(found)[p] == multiset(ValuesOf(found, p.name))[p.value]
  {
    if found != [] {
      PairCount(found[1..], p);
      assert found == [found[0]] + found[1..];
    }
  }

  /** Lists with the same values for every name hold the same pairs. */
  lemma SameValuesSamePairs(a: seq<Pair>, b: seq<Pair>)
    requires forall name :: ValuesOf(a, name) == ValuesOf(b, name)
    ensures multiset(a) == multiset(b)
  {
    forall p
      ensures multiset(a)[p] == multiset(b)[p]
    {
      PairCount(a, p);
      PairCount(b, p);
    }
  }

  /** The pairs left when those of a name are removed. */
  function Unset(found: seq<Pair>, name: string): seq<Pair> {
    if found == [] then []
    else (if found[0].name == name then [] else [found[0]]) + Unset(found[1..], name)
  }

  /** Unsetting removes every value of that name and no other. */
  lemma {:induction false} UnsetRefines(found: seq<Pair>, name: string, other: string)
    ensures ValuesOf(Unset(found, name), other) == if other == name then [] else ValuesOf(found, other)
  {
    if found != [] {
      UnsetRefines(found[1..], name, other);
      var rest := Unset(found[1..], name);
      assert ([found[0]] + rest)[1..] == rest && [] + rest == rest;
    }
  }

  lemma UnsetFirst(found: seq<Pair>, name: string)
    ensures found == [] ==> Unset(found, name) == []
    ensures found != [] ==>
              Unset(found, name) == (if found[0].name == name then [] else [found[0]]) + Unset(found[1..], name)
  {
  }

  // ----- Reading

  /** The next pair of that name, whatever its case, from pair number `from` on. */
  function NextValue(found: seq<Pair>, name: string, from: nat): (r: Option<nat>)
    ensures r.Some? ==> from <= r.value < |found|
    decreases |found| - from
  {
    if from >= |found| then None
    else if CaseEqual(found[from].name, name) then Some(from)
    else NextValue(found, name, from + 1)
  }

  /** All values of a name, whatever its case, in insertion order, from pair number `from` on. */
  function Values(found: seq<Pair>, name: string, from: nat): seq<string>
    decreases |found| - from
  {
    if from >= |found| then []
    else (if CaseEqual(found[from].name, name) then [found[from].value] else [])
         + Values(found, name, from + 1)
  }

  lemma {:induction false} NextOfValues(found: seq<Pair>, name: string, from: nat)
    ensures match NextValue(found, name, from)
            case None => Values(found, name, from) == []
            case Some(k) => Values(found, name, from) == [found[k].value] + Values(found, name, k + 1)
    decreases |found| - from
  {
    hide CaseEqual;
    if from < |found| {
      var rest := Values(found, name, from + 1);
      assert [] + rest == rest;
      if !CaseEqual(found[from].name, name) {
        NextOfValues(found, name, from + 1);
      }
    }
  }

  /** Reading ignores case where setting does not: the two agree on a name exactly when no pair has
      that name in another case. */
  lemma ReadingAgrees(found: seq<Pair>, name: string)
    ensures Values(found, name, 0) == ValuesOf(found, name)
       <==> forall p <- found :: CaseEqual(p.name, name) ==> p.name == name
  {
    ReadingAgreesFrom(found, name, 0);
    assert found[0..] == found;
  }

  lemma {:induction false} ReadingAgreesFrom(found: seq<Pair>, name: string, from: nat)
    requires from <= |found|
    ensures |Values(found, name, from)| >= |ValuesOf(found[from..], name)|
    ensures Values(found, name, from) == ValuesOf(found[from..], name)
       <==> forall p <- found[from..] :: CaseEqual(p.name, name) ==> p.name == name
    ensures |Values(found, name, from)| == |ValuesOf(found[from..], name)|
        ==> Values(found, name, from) == ValuesOf(found[from..], name)
    decreases |found| - from
  {
    hide CaseEqual;
    SameNameCaseEqual(name);
    if from < |found| {
      ReadingAgreesFrom(found, name, from + 1);
      assert found[from..] == [found[from]] + found[from + 1..];
      var here, rest, exact := found[from], Values(found, name, from + 1), ValuesOf(found[from + 1..], name);
      assert ValuesOf(found[from..], name) == (if here.name == name then [here.value] else []) + exact;
      assert ([here.value] + rest)[1..] == rest && ([here.value] + exact)[1..] == exact;
    }
  }

  lemma SameNameCaseEqual(name: string)
    ensures CaseEqual(name, name)
  {
  }

  /** The next value is the first pair of the name, whatever its case. */
  lemma {:induction false} NextIsFirst(found: seq<Pair>, name: string, from: nat)
    ensures var r := NextValue(found, name, from);
            && (r.Some? ==> CaseEqual(found[r.value].name, name))
            && (forall i :: from <= i < (if r.Some? then r.value else |found|) ==> !CaseEqual(found[i].name, name))
    decreases |found| - from
  {
    hide CaseEqual;
    if from < |found| {
      NextIsFirst(found, name, from + 1);
    }
  }

  predicate IsValue(found: seq<Pair>, name: string, k: nat) {
    k < |found| && CaseEqual(found[k].name, name)
  }

  /** The value after the one at `findAfter`, or the first one. */
  function ValueAfter(found: seq<Pair>, name: string, findAfter: Option<nat>): Option<nat> {
    if findAfter.None? then NextValue(found, name, 0)
    else if findAfter.value < |found| && CaseEqual(found[findAfter.value].name, name) then
      NextValue(found, name, findAfter.value + 1)
    else None
  }

  // ----- The pairs as the program updates them

  class Cli {
    var foundOptargs: seq<Pair>

    constructor ()
      ensures foundOptargs == []
    {
      foundOptargs := [];
    }

    method SetOptargValue(name: string, value: string, allowMultiple: bool)
      modifies this
      ensures foundOptargs == SetPair(old(foundOptargs), name, value, allowMultiple)
    {
      var i := 0;
      while i < |foundOptargs|
        invariant 0 <= i <= |foundOptargs| && foundOptargs == old(foundOptargs)
        invariant forall k :: 0 <= k < i ==> foundOptargs[k].name != name || allowMultiple
      {
        if foundOptargs[i].name == name && !allowMultiple {
          SetPairAt(foundOptargs, name, value, allowMultiple, i);
          foundOptargs := foundOptargs[i := foundOptargs[i].(value := value)];
          return;
        }
        i := i + 1;
      }
      SetPairAt(foundOptargs, name, value, allowMultiple, i);
      foundOptargs := foundOptargs + [Pair(name, value)];
    }

    method UnsetOptargValue(name: string)
      modifies this
      ensures foundOptargs == Unset(old(foundOptargs), name)
    {
      hide Unset;
      var i := 0;
      ghost var rest := foundOptargs;
      assert [] + rest == rest && [] + Unset(rest, name) == Unset(rest, name);
      while i < |foundOptargs|
        invariant 0 <= i <= |foundOptargs| && foundOptargs[i..] == rest
        invariant Unset(old(foundOptargs), name) == foundOptargs[..i] + Unset(rest, name)
        decreases |rest|
      {
        UnsetFirst(rest, name);
        assert rest[0] == foundOptargs[i] && rest[1..] == foundOptargs[i + 1..];
        rest := rest[1..];
        if foundOptargs[i].name == name {
          ghost var before := foundOptargs[..i];
          foundOptargs := foundOptargs[..i] + foundOptargs[i + 1..];
          assert foundOptargs[..i] == before && foundOptargs[i..] == rest;
        } else {
          assert foundOptargs[..i + 1] == foundOptargs[..i] + [foundOptargs[i]];
          i := i + 1;
        }
      }
      UnsetFirst(rest, name);
    }

    /** The position of the value stands for the identity of its string. A `findAfter` that is not a
        value of the name finds nothing. */
    method GetOptargValue(name: string, findAfter: Option<nat>) returns (at: Option<nat>)
      ensures at == ValueAfter(foundOptargs, name, findAfter)
      ensures at.Some? ==>
                && at.value < |foundOptargs| && CaseEqual(foundOptargs[at.value].name, name)
                && (findAfter.Some? ==> findAfter.value < at.value)
                && forall i :: (if findAfter.Some? then findAfter.value + 1 else 0) <= i < at.value ==>
                     !CaseEqual(foundOptargs[i].name, name)
      ensures at.None? <==>
                || (findAfter.Some? && !IsValue(foundOptargs, name, findAfter.value))
                || forall i :: (if findAfter.Some? then findAfter.value + 1 else 0) <= i < |foundOptargs| ==>
                     !CaseEqual(foundOptargs[i].name, name)
    {
      hide CaseEqual;
      var after := findAfter;
      var i := 0;
      NextIsFirst(foundOptargs, name, if findAfter.Some? then findAfter.value + 1 else 0);
      while i < |foundOptargs|
        invariant 0 <= i <= |foundOptargs|
        invariant after.Some? ==>
                    after == findAfter && (after.value < i ==> !CaseEqual(foundOptargs[after.value].name, name))
        invariant after.None? ==> NextValue(foundOptargs, name, i) == ValueAfter(foundOptargs, name, findAfter)
      {
        if CaseEqual(foundOptargs[i].name, name) {
          if after == Some(i) {
            after := None;
          } else if after.None? {
            return Some(i);
          }
        }
        i := i + 1;
      }
      return None;
    }

    /** Reading value after value visits each of them once, in insertion order. */
    method AllValues(name: string) returns (values: seq<string>)
      ensures values == Values(foundOptargs, name, 0)
    {
      hide CaseEqual, Values;
      values := [];
      var at := GetOptargValue(name, None);
      NextOfValues(foundOptargs, name, 0);
      ghost var from := 0;
      while at.Some?
        invariant from <= |foundOptargs| && at == NextValue(foundOptargs, name, from)
        invariant values + Values(foundOptargs, name, from) == Values(foundOptargs, name, 0)
        decreases |foundOptargs| - from
      {
        NextOfValues(foundOptargs, name, from);
        NextIsFirst(foundOptargs, name, from);
        values := values + [foundOptargs[at.value].value];
        from := at.value + 1;
        at := GetOptargValue(name, at);
      }
      NextOfValues(foundOptargs, name, from);
    }
  }
}

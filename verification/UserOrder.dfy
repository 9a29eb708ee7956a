/** Entries of a user-ordered list: the indices that are printed and insertion by index
    (`edit_node_data_tree_list`, `cmd_print_list_order`). */
module UserOrder {
  const STEP: int := 10

  /** An entry of a list is known by the values of its keys. */
  datatype Entry = Entry(keys: seq<string>)

  datatype Printed = Printed(entry: Entry, index: int)

  datatype Result = Ok | Failed

  ghost predicate Distinct(s: seq<Entry>) {
    forall i, j :: 0 <= i < j < |s| ==> s[i] != s[j]
  }

  /** Where index `k` points: the number of entries printed with an index of at most `k`. */
  function Position(k: int): nat {
    if k < 0 then 0 else k / STEP
  }

  function Without(s: seq<Entry>, x: Entry): (r: seq<Entry>)
    ensures |r| <= |s| && (forall y :: y in r <==> y in s && y != x)
  {
    if s == [] then [] else (if s[0] == x then [] else [s[0]]) + Without(s[1..], x)
  }

  lemma {:induction false} WithoutAppend(s: seq<Entry>, t: seq<Entry>, x: Entry)
    ensures Without(s + t, x) == Without(s, x) + Without(t, x)
  {
    if s == [] {
      assert s + t == t;
    } else {
      assert (s + t)[1..] == s[1..] + t;
      WithoutAppend(s[1..], t, x);
    }
  }

  lemma {:induction false} WithoutAbsent(s: seq<Entry>, x: Entry)
    requires x !in s
    ensures Without(s, x) == s
  {
    if s != [] {
      WithoutAbsent(s[1..], x);
    }
  }

  /** `s` with `x` taken out and put back before the element at `at`. */
  function Moved(s: seq<Entry>, at: nat, x: Entry): seq<Entry>
    requires at < |s|
  {
    Without(s[..at], x) + [x] + Without(s[at..], x)
  }

  /** `x` stands immediately before `y`. */
  ghost predicate StandsBefore(s: seq<Entry>, x: Entry, y: Entry) {
    exists q: nat :: q + 1 < |s| && s[q] == x && s[q + 1] == y
  }

  /** The list in which the index is looked up: an entry that is not there yet is first appended. */
  function WithEntry(s: seq<Entry>, x: Entry): seq<Entry> {
    if x in s then s else s + [x]
  }

  /** The index printed beside the entry at position `i`. */
  function IndexAt(i: int): int {
    (i + 1) * STEP
  }

  /** The index points at entry `p`: its printed index is the first to exceed `k`. */
  ghost predicate PointsAt(k: int, p: nat) {
    k < IndexAt(p) && forall i: nat :: i < p ==> IndexAt(i) <= k
  }

  lemma PositionIsFirstAbove(k: int, p: nat)
    ensures PointsAt(k, p) <==> p == Position(k)
  {
    assert p > 0 ==> IndexAt(p - 1) == p * STEP;
    assert p > 0 && PointsAt(k, p) ==> IndexAt(p - 1) <= k;
  }

  lemma {:induction false} WithoutIsDistinct(s: seq<Entry>, x: Entry)
    requires Distinct(s)
    ensures Distinct(Without(s, x))
  {
    if s != [] {
      assert forall j :: 0 <= j < |s[1..]| ==> s[1..][j] == s[j + 1];
      WithoutIsDistinct(s[1..], x);
      assert s[0] !in Without(s[1..], x);
    }
  }

  lemma PutBack(before: seq<Entry>, x: Entry, after: seq<Entry>)
    requires x !in before && x !in after
    ensures Without(before + [x] + after, x) == before + after
  {
    hide Without;
    WithoutAppend(before + [x], after, x);
    WithoutAppend(before, [x], x);
    WithoutAbsent(before, x);
    WithoutAbsent(after, x);
    WithoutItself(x);
  }

  lemma WithoutItself(x: Entry)
    ensures Without([x], x) == []
  {
  }

  lemma PutBackIsDistinct(before: seq<Entry>, x: Entry, after: seq<Entry>)
    requires x !in before && x !in after && Distinct(before + after)
    ensures Distinct(before + [x] + after)
  {
    var n, s, t := |before|, before + after, before + [x] + after;
    forall i, j | 0 <= i < j < |t| ensures t[i] != t[j] {
      assert i != n ==> t[i] == s[if i < n then i else i - 1];
      assert j != n ==> t[j] == s[if j < n then j else j - 1];
    }
  }

  /** Moving keeps every other entry in its order, and puts `x` before the one it was aimed at. */
  lemma MovedIsPlaced(s: seq<Entry>, at: nat, x: Entry)
    requires Distinct(s) && at < |s| && s[at] != x
    ensures Without(Moved(s, at, x), x) == Without(s, x)
    ensures StandsBefore(Moved(s, at, x), x, s[at])
    ensures Distinct(Moved(s, at, x))
  {
    WithoutAppend(s[..at], s[at..], x);
    assert s[..at] + s[at..] == s;
    WithoutIsDistinct(s, x);
    var before, after := Without(s[..at], x), Without(s[at..], x);
    assert after[0] == s[at];
    PutBack(before, x, after);
    PutBackIsDistinct(before, x, after);
    assert Moved(s, at, x)[|before|] == x && Moved(s, at, x)[|before| + 1] == after[0];
  }

  lemma {:induction false} WithoutLength(s: seq<Entry>, x: Entry)
    requires Distinct(s)
    ensures |Without(s, x)| == if x in s then |s| - 1 else |s|
  {
    if s != [] {
      assert forall j :: 0 <= j < |s[1..]| ==> s[1..][j] == s[j + 1];
      WithoutLength(s[1..], x);
      assert s == [s[0]] + s[1..];
    }
  }

  /** Where an entry that was at `e` ends up: at the position asked for when it moves up, one
      before it when it moves down. */
  lemma MovedPosition(s: seq<Entry>, at: nat, x: Entry, e: nat)
    requires Distinct(s) && at < |s| && e < |s| && s[e] == x && e != at
    ensures |Moved(s, at, x)| == |s|
    ensures Moved(s, at, x)[if e < at then at - 1 else at] == x
  {
    WithoutLength(s[..at], x);
    WithoutLength(s[at..], x);
    assert e < at ==> s[..at][e] == x;
    assert e > at ==> s[at..][e - at] == x;
    hide Without;
  }

  /** The list of siblings, in the order of the data tree. */
  class OrderedList {
    var entries: seq<Entry>

    constructor (entries: seq<Entry>)
      ensures this.entries == entries
    {
      this.entries := entries;
    }

    /** `print-order` */
    method PrintOrder() returns (lines: seq<Printed>)
      ensures |lines| == |entries|
      ensures forall i :: 0 <= i < |lines| ==> lines[i] == Printed(entries[i], 10 * (i + 1))
    {
      lines := [];
      var index := STEP;
      for i := 0 to |entries|
        invariant |lines| == i && index == IndexAt(i)
        invariant forall k :: 0 <= k < i ==> lines[k] == Printed(entries[k], IndexAt(k))
      {
        lines := lines + [Printed(entries[i], index)];
        index := index + STEP;
      }
    }

    /** `lyd_insert_before(next, entry)`: an entry cannot be moved before itself. */
    method InsertBefore(at: nat, entry: Entry) returns (r: Result)
      requires at < |entries|
      modifies this
      ensures r == if old(entries)[at] == entry then Failed else Ok
      ensures entries == if r.Ok? then Moved(old(entries), at, entry) else old(entries)
    {
      if entries[at] == entry {
        return Failed;
      }
      entries := Moved(entries, at, entry);
      return Ok;
    }

    /** Adding an entry, or entering one that exists, with an index; 0 stands for none. */
    method AddEntry(entry: Entry, index: int) returns (r: Result)
      requires Distinct(entries)
      modifies this
      ensures Distinct(entries)
      ensures var s, p := WithEntry(old(entries), entry), Position(index);
        && (r.Failed? <==> index != 0 && p < |s| && s[p] == entry)
        && (r.Failed? ==> entries == Without(s, entry))
        && (r.Ok? ==> entry in entries && Without(entries, entry) == Without(s, entry))
        && (r.Ok? && index != 0 && p < |s| ==> StandsBefore(entries, entry, s[p]) && entries == Moved(s, p, entry))
        && (r.Ok? && (index == 0 || p >= |s|) ==> entries == s)
    {
      hide Without, Moved, StandsBefore;
      if entry !in entries {
        entries := entries + [entry];
      }
      ghost var s := entries;
      r := Ok;
      if index != 0 {
        var current, i := STEP, 0;
        while i < |entries| && index >= current
          invariant i <= |entries| && current == IndexAt(i) && i <= Position(index)
        {
          current := current + STEP;
          i := i + 1;
        }
        if i < |entries| {
          r := InsertBefore(i, entry);
          if r.Failed? {
            WithoutIsDistinct(entries, entry);
            entries := Without(entries, entry);
          } else {
            MovedIsPlaced(s, i, entry);
          }
        }
      }
    }
  }

  /** A new entry is refused exactly when its index points just past the entries that exist. */
  lemma NewEntryRefused(s: seq<Entry>, x: Entry, index: int)
    requires x !in s
    ensures var all, p := WithEntry(s, x), Position(index);
            (p < |all| && all[p] == x) <==> |s| * STEP <= index < (|s| + 1) * STEP || (index < 0 && s == [])
  {
  }
}

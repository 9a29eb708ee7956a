/** The line editor of `cli_loop`: a fixed buffer edited in place refines two strings, the text
    before and the text after the cursor. */
module LineEditor {
  import opened CStrings

  const MAX_LINE_LENGTH: nat := 4096
  const CAPACITY: nat := MAX_LINE_LENGTH - 1

  // ----- The specification: a zipper

  datatype Zipper = Zipper(left: string, right: string) {
    function Text(): string { left + right }
  }

  datatype Key =
    | Insert(c: char)      // any byte that is not an editing key
    | Backspace            // ^H or DEL
    | BackWord             // ^W
    | ClearLine            // ^U
    | KillToEnd            // ^K
    | Left                 // ^B
    | Right                // ^F
    | Home                 // ^A
    | End                  // ^E
    | Recall(line: string) // ^P or ^N, with the history line found
    | Redraw               // ^L, ^C and the like: the line stays as it is

  /** `s` without the blanks at its end. */
  function DropSpaces(s: string): (r: string)
    ensures |r| <= |s| && r == s[..|r|]
  {
    if s != "" && s[|s| - 1] == ' ' then DropSpaces(s[..|s| - 1]) else s
  }

  /** `s` without the word at its end. */
  function DropWord(s: string): (r: string)
    ensures |r| <= |s| && r == s[..|r|]
  {
    if s != "" && s[|s| - 1] != ' ' then DropWord(s[..|s| - 1]) else s
  }

  function Truncate(s: string, n: nat): string {
    if |s| > n then s[..n] else s
  }

  /** What a key does to the line. At capacity an insertion at the end is refused, and one in the
      middle pushes the last character out. */
  function Press(z: Zipper, key: Key): Zipper {
    match key
    case Insert(c) =>
      if |z.Text()| < CAPACITY then Zipper(z.left + [c], z.right)
      else if z.right == "" then z
      else Zipper(z.left + [c], z.right[..|z.right| - 1])
    case Backspace => if z.left == "" then z else Zipper(z.left[..|z.left| - 1], z.right)
    case BackWord => Zipper(DropWord(DropSpaces(z.left)), z.right)
    case ClearLine => Zipper("", "")
    case KillToEnd => Zipper(z.left, "")
    case Left => if z.left == "" then z else Zipper(z.left[..|z.left| - 1], [z.left[|z.left| - 1]] + z.right)
    case Right => if z.right == "" then z else Zipper(z.left + [z.right[0]], z.right[1..])
    case Home => Zipper("", z.Text())
    case End => Zipper(z.Text(), "")
    case Recall(line) => Zipper(Truncate(line, CAPACITY), "")
    case Redraw => z
  }

  function PressAll(z: Zipper, keys: seq<Key>): Zipper
    decreases |keys|
  {
    if keys == [] then z else PressAll(Press(z, keys[0]), keys[1..])
  }

  /** Keys never carry a NUL. */
  ghost predicate Typeable(key: Key) {
    (key.Insert? ==> key.c != NUL) && (key.Recall? ==> NulFree(key.line))
  }

  lemma PressInside(z: Zipper, c: char, n: nat)
    requires z.right != "" && |z.Text()| <= CAPACITY
    requires n == if |z.Text()| < CAPACITY then |z.right| else |z.right| - 1
    ensures Press(z, Insert(c)) == Zipper(z.left + [c], z.right[..n])
  {
    assert z.right[..|z.right|] == z.right;
  }

  lemma SeqIs(s: string, t: string)
    requires |s| == |t| && forall i :: 0 <= i < |s| ==> s[i] == t[i]
    ensures s == t
  {
  }

  /** No key makes the line longer than the buffer allows. */
  lemma PressStaysWithin(z: Zipper, key: Key)
    requires |z.Text()| <= CAPACITY
    ensures |Press(z, key).Text()| <= CAPACITY
  {
    hide DropWord, DropSpaces;
  }

  /** Moving the cursor does not change the line. */
  lemma MovingKeepsText(z: Zipper, key: Key)
    requires key in {Left, Right, Home, End, Redraw}
    ensures Press(z, key).Text() == z.Text()
  {
    if z.right != "" {
      assert z.left + [z.right[0]] + z.right[1..] == z.left + z.right;
    }
    if z.left != "" {
      var n := |z.left| - 1;
      assert z.left[..n] + ([z.left[n]] + z.right) == z.left + z.right;
    }
    assert z.Text() + "" == z.Text() && "" + z.Text() == z.Text();
  }

  function Least(a: int, b: int): int {
    if a < b then a else b
  }

  /** The keys, said about the text `t` and the cursor position `n`. Insertion is one rule for all
      cases: what no longer fits falls off the end. */
  lemma KeyOnText(z: Zipper, key: Key)
    requires |z.Text()| <= CAPACITY
    ensures var t, n, r := z.Text(), |z.left|, Press(z, key);
            match key
            case Insert(c) =>
              && r.Text() == (t[..n] + [c] + t[n..])[..Least(|t| + 1, 4095)]
              && |r.left| == Least(n + 1, 4095)
            case Backspace => if n == 0 then r == z else r.Text() == t[..n - 1] + t[n..] && |r.left| == n - 1
            case BackWord => r.right == z.right && IsWordBack(z.left, r.left)
            case ClearLine => r.Text() == ""
            case KillToEnd => r.Text() == t[..n] && |r.left| == n
            case Left => r.Text() == t && |r.left| == if n > 0 then n - 1 else 0
            case Right => r.Text() == t && |r.left| == Least(n + 1, |t|)
            case Home => r.Text() == t && |r.left| == 0
            case End => r.Text() == t && |r.left| == |t|
            case Recall(line) => r.Text() == line[..Least(|line|, 4095)] && |r.left| == |r.Text()|
            case Redraw => r == z
  {
    match key
    case Insert(c) => InsertOnText(z, c);
    case BackWord => WordRemoved(z.left);
    case Left => MovingKeepsText(z, key);
    case Right => MovingKeepsText(z, key);
    case Home => MovingKeepsText(z, key);
    case End => MovingKeepsText(z, key);
    case _ =>
  }

  /** `kept` is `s` without its last word and the blanks after that. */
  ghost predicate IsWordBack(s: string, kept: string) {
    exists word, blanks ::
      && s == kept + word + blanks
      && ' ' !in word && (forall c <- blanks :: c == ' ')
      && (kept == "" || kept[|kept| - 1] == ' ')
      && (word == "" ==> kept == "")
  }

  lemma InsertOnText(z: Zipper, c: char)
    requires |z.Text()| <= CAPACITY
    ensures var t, n, r := z.Text(), |z.left|, Press(z, Insert(c));
            && r.Text() == (t[..n] + [c] + t[n..])[..Least(|t| + 1, 4095)]
            && |r.left| == Least(n + 1, 4095)
  {
    var t, n := z.Text(), |z.left|;
    assert t[..n] == z.left && t[n..] == z.right;
  }

  /** Deleting what was just typed restores the line exactly when there was space for it. */
  lemma BackspaceUndoesInsert(z: Zipper, c: char)
    requires |z.Text()| <= CAPACITY
    ensures Press(Press(z, Insert(c)), Backspace) == z <==> |z.Text()| < CAPACITY
  {
    assert (z.left + [c])[..|z.left|] == z.left;
  }

  /** `^W` removes the last word before the cursor and the blanks after it, and nothing else. */
  lemma WordRemoved(s: string)
    ensures var kept := DropWord(DropSpaces(s));
            var word := DropSpaces(s)[|kept|..];
            && s == kept + word + s[|DropSpaces(s)|..]
            && ' ' !in word && (forall c <- s[|DropSpaces(s)|..] :: c == ' ')
            && (kept == "" || kept[|kept| - 1] == ' ')
            && (word == "" ==> kept == "")
  {
    SpacesDropped(s);
    WordDropped(DropSpaces(s));
    var t := DropSpaces(s);
    assert s == t + s[|t|..] && t == DropWord(t) + t[|DropWord(t)|..];
  }

  lemma {:induction false} SpacesDropped(s: string)
    ensures var t := DropSpaces(s);
            && (t == "" || t[|t| - 1] != ' ')
            && forall c <- s[|t|..] :: c == ' '
  {
    if s != "" && s[|s| - 1] == ' ' {
      SpacesDropped(s[..|s| - 1]);
      var t := DropSpaces(s);
      assert s[|t|..] == s[..|s| - 1][|t|..] + [' '];
    }
  }

  lemma {:induction false} WordDropped(s: string)
    ensures var t := DropWord(s);
            && (t == "" || t[|t| - 1] == ' ')
            && ' ' !in s[|t|..]
            && (s != "" && s[|s| - 1] != ' ' ==> |t| < |s|)
  {
    if s != "" && s[|s| - 1] != ' ' {
      WordDropped(s[..|s| - 1]);
      var t := DropWord(s);
      assert s[|t|..] == s[..|s| - 1][|t|..] + [s[|s| - 1]];
    }
  }

  /** Typing into an empty line enters the text, up to the capacity. */
  lemma {:induction false} TypingEnters(z: Zipper, keys: seq<Key>)
    requires z.right == "" && |z.left| <= CAPACITY
    requires forall k <- keys :: k.Insert?
    ensures PressAll(z, keys) == Zipper(Truncate(z.left + Typed(keys), CAPACITY), "")
    decreases |keys|
  {
    hide Press, Truncate, PressAll, Typed;
    if keys == [] {
      TypeNothing(z, keys);
    } else {
      assert keys[0] in keys && forall k <- keys[1..] :: k in keys;
      var c, more := keys[0].c, Typed(keys[1..]);
      TypeOne(z, c);
      PressFirst(z, keys);
      TypingEnters(Press(z, keys[0]), keys[1..]);
      TruncateTwice(z.left + [c], more);
      TypedFirst(keys);
      assert z.left + ([c] + more) == z.left + [c] + more;
    }
  }

  lemma TypeNothing(z: Zipper, keys: seq<Key>)
    requires keys == [] && z.right == "" && |z.left| <= CAPACITY
    ensures PressAll(z, keys) == Zipper(Truncate(z.left + Typed(keys), CAPACITY), "")
  {
    assert z.left + "" == z.left;
  }

  lemma PressFirst(z: Zipper, keys: seq<Key>)
    requires keys != []
    ensures PressAll(z, keys) == PressAll(Press(z, keys[0]), keys[1..])
  {
  }

  lemma TypeOne(z: Zipper, c: char)
    requires z.right == "" && |z.left| <= CAPACITY
    ensures Press(z, Insert(c)) == Zipper(Truncate(z.left + [c], CAPACITY), "")
    ensures |Truncate(z.left + [c], CAPACITY)| <= CAPACITY
  {
    assert z.left + "" == z.left && (z.left + [c])[..|z.left|] == z.left;
  }

  lemma TruncateTwice(s: string, t: string)
    ensures Truncate(Truncate(s, CAPACITY) + t, CAPACITY) == Truncate(s + t, CAPACITY)
  {
  }

  lemma TypedFirst(keys: seq<Key>)
    requires keys != [] && forall k <- keys :: k.Insert?
    ensures forall k <- keys[1..] :: k in keys
    ensures Typed(keys) == [keys[0].c] + Typed(keys[1..])
  {
  }

  function Typed(keys: seq<Key>): string
    requires forall k <- keys :: k.Insert?
  {
    if keys == [] then ""
    else
      assert keys[0] in keys && forall k <- keys[1..] :: k in keys;
      [keys[0].c] + Typed(keys[1..])
  }

  // ----- The buffer

  class Editor {
    const cmd: array<char>
    var l: nat
    var cursor: nat

    /** Below `l` the buffer holds the line, from `l` on it is zero; so its `strlen` is `l`. */
    ghost predicate Valid()
      reads this, cmd
    {
      && cmd.Length == MAX_LINE_LENGTH
      && cursor <= l <= CAPACITY
      && (forall i :: 0 <= i < l ==> cmd[i] != NUL)
      && (forall i :: l <= i < cmd.Length ==> cmd[i] == NUL)
    }

    ghost function Line(): Zipper
      requires cursor <= l <= cmd.Length
      reads this, cmd
    {
      Zipper(cmd[..cursor], cmd[cursor..l])
    }

    constructor ()
      ensures Valid() && Line() == Zipper("", "") && fresh(cmd)
    {
      cmd := new char[MAX_LINE_LENGTH](_ => NUL);
      l, cursor := 0, 0;
    }

    /** `memset(cmd + from, c, to - from)` */
    method Fill(from: nat, to: nat, c: char)
      requires from <= to <= cmd.Length
      modifies cmd
      ensures forall i :: 0 <= i < cmd.Length ==> cmd[i] == if from <= i < to then c else old(cmd[i])
    {
      for i := from to to
        invariant forall k :: 0 <= k < cmd.Length ==> cmd[k] == if from <= k < i then c else old(cmd[k])
      {
        cmd[i] := c;
      }
    }

    method InsertChar(c: char)
      requires Valid() && c != NUL
      modifies this, cmd
      ensures Valid() && Line() == Press(old(Line()), Insert(c))
    {
      if cursor == l {
        if l < CAPACITY {
          cmd[cursor] := c;
          l := l + 1;
          cursor := cursor + 1;
        } else {
          cmd[cursor] := NUL;
        }
      } else {
        InsertInside(c);
      }
    }

    /** The bytes of an insertion in the middle: a `memmove` to make space, the new character, and a
        zero over what falls off at capacity. */
    method PutInside(c: char, ghost z: Zipper)
      requires Valid() && cursor < l && Line() == z
      modifies cmd
      ensures forall i :: 0 <= i < cursor ==> cmd[i] == z.left[i]
      ensures cmd[cursor] == c
      ensures forall i :: cursor < i <= l && i < CAPACITY ==> cmd[i] == z.right[i - cursor - 1]
      ensures forall i :: l < i < cmd.Length || i == CAPACITY ==> cmd[i] == NUL
    {
      forall i | cursor <= i < l {
        cmd[i + 1] := cmd[i];
      }
      cmd[cursor] := c;
      if l == CAPACITY {
        cmd[l] := NUL;
      }
    }

    method InsertInside(c: char)
      requires Valid() && c != NUL && cursor < l
      modifies this, cmd
      ensures Valid() && Line() == Press(old(Line()), Insert(c))
    {
      hide Press;
      ghost var z := Line();
      ghost var n := if l < CAPACITY then |z.right| else |z.right| - 1;
      assert NulFree(z.left) && NulFree(z.right);
      PutInside(c, z);
      if l < CAPACITY {
        l := l + 1;
      }
      cursor := cursor + 1;
      PressInside(z, c, n);
      LineIs(z.left + [c], z.right[..n]);
    }

    lemma LineIs(left: string, right: string)
      requires cursor == |left| && l == |left| + |right| <= cmd.Length
      requires forall i :: 0 <= i < |left| ==> cmd[i] == left[i]
      requires forall i :: cursor <= i < l ==> cmd[i] == right[i - cursor]
      requires NulFree(left) && NulFree(right)
      requires cmd.Length == MAX_LINE_LENGTH && l <= CAPACITY && forall i :: l <= i < cmd.Length ==> cmd[i] == NUL
      ensures Valid() && Line() == Zipper(left, right)
    {
      assert forall i :: 0 <= i < |left| ==> left[i] in left;
      assert forall i :: 0 <= i < |right| ==> right[i] in right;
      SeqIs(cmd[..cursor], left);
      SeqIs(cmd[cursor..l], right);
    }

    /** The bytes of one deletion: the tail moves over the character before the cursor. */
    method PullBack(ghost z: Zipper)
      requires Valid() && cursor > 0 && Line() == z
      modifies cmd
      ensures forall i :: 0 <= i < cursor - 1 ==> cmd[i] == z.left[i]
      ensures forall i :: cursor - 1 <= i < l - 1 ==> cmd[i] == z.right[i - (cursor - 1)]
      ensures forall i :: l - 1 <= i < cmd.Length ==> cmd[i] == NUL
    {
      if l == cursor {
        cmd[cursor - 1] := NUL;
      } else {
        forall i | cursor <= i < l {
          cmd[i - 1] := cmd[i];
        }
        cmd[l - 1] := NUL;
      }
    }

    /** One turn of the deletion loop shared by backspace and back-word. */
    method DeleteBack()
      requires Valid() && cursor > 0
      modifies this, cmd
      ensures Valid() && Line() == Press(old(Line()), Backspace)
    {
      ghost var z := Line();
      assert NulFree(z.left) && NulFree(z.right);
      PullBack(z);
      cursor := cursor - 1;
      l := l - 1;
      LineIs(z.left[..|z.left| - 1], z.right);
    }

    method DeleteBackN(back: nat)
      requires Valid() && back <= cursor
      modifies this, cmd
      ensures Valid() && Line() == Zipper(old(Line()).left[..old(cursor) - back], old(Line()).right)
    {
      var n: nat := back;
      ghost var z := Line();
      assert z.left[..cursor] == z.left;
      while n > 0
        invariant Valid() && n <= back && cursor == old(cursor) - (back - n)
        invariant Line() == Zipper(z.left[..cursor], z.right)
      {
        assert z.left[..cursor][..cursor - 1] == z.left[..cursor - 1];
        DeleteBack();
        n := n - 1;
      }
    }

    method BackspaceKey()
      requires Valid()
      modifies this, cmd
      ensures Valid() && Line() == Press(old(Line()), Backspace)
    {
      if l == 0 || cursor == 0 {
        return;
      }
      DeleteBackN(1);
    }

    /** How far `^W` goes back: over blanks, then over a word. */
    method WordBack() returns (back: nat)
      requires Valid()
      ensures back <= cursor && cmd[..cursor - back] == DropWord(DropSpaces(Line().left))
    {
      var nc: nat := cursor;
      while nc > 0 && cmd[nc - 1] == ' '
        invariant nc <= cursor && DropSpaces(cmd[..nc]) == DropSpaces(cmd[..cursor])
      {
        assert cmd[..nc][..nc - 1] == cmd[..nc - 1];
        nc := nc - 1;
      }
      assert cmd[..nc] == DropSpaces(cmd[..cursor]);
      while nc > 0 && cmd[nc - 1] != ' '
        invariant nc <= cursor && DropWord(cmd[..nc]) == DropWord(DropSpaces(cmd[..cursor]))
      {
        assert cmd[..nc][..nc - 1] == cmd[..nc - 1];
        nc := nc - 1;
      }
      back := cursor - nc;
    }

    method BackWordKey()
      requires Valid()
      modifies this, cmd
      ensures Valid() && Line() == Press(old(Line()), BackWord)
    {
      if l == 0 || cursor == 0 {
        return;
      }
      var back := WordBack();
      DeleteBackN(back);
    }

    /** `cli_clear_line` uses the buffer itself to hold what it writes to the terminal. */
    method ClearLineKey()
      requires Valid()
      modifies this, cmd
      ensures Valid() && Line() == Press(old(Line()), ClearLine)
    {
      Fill(0, cursor, '\U{08}');
      Fill(0, l, ' ');
      Fill(0, l, '\U{08}');
      Fill(0, l, NUL);
      l, cursor := 0, 0;
    }

    method KillToEndKey()
      requires Valid()
      modifies this, cmd
      ensures Valid() && Line() == Press(old(Line()), KillToEnd)
    {
      if cursor == l {
        return;
      }
      Fill(cursor, l, NUL);
      l := cursor;
    }

    method MoveKey(key: Key)
      requires Valid() && (key.Left? || key.Right?)
      modifies this`cursor
      ensures Valid() && Line() == Press(old(Line()), key)
    {
      if key.Left? {
        if cursor > 0 {
          assert cmd[cursor - 1..l] == [cmd[cursor - 1]] + cmd[cursor..l];
          cursor := cursor - 1;
        }
      } else {
        if cursor < l {
          assert cmd[cursor..l] == [cmd[cursor]] + cmd[cursor + 1..l];
          cursor := cursor + 1;
        }
      }
    }

    method JumpKey(key: Key)
      requires Valid() && (key.Home? || key.End?)
      modifies this`cursor
      ensures Valid() && Line() == Press(old(Line()), key)
    {
      assert cmd[..cursor] + cmd[cursor..l] == cmd[..l] == cmd[0..l];
      if key.Home? {
        cursor := 0;
      } else {
        cursor := l;
      }
    }

    /** A history line is cleared in and copied with `strncpy`, then measured. */
    method RecallLine(line: string)
      requires Valid() && NulFree(line)
      modifies this, cmd
      ensures Valid() && Line() == Press(old(Line()), Recall(line))
    {
      ClearLineKey();
      Fill(0, MAX_LINE_LENGTH, NUL);
      var n: nat := 0;
      while n < |line| && n < CAPACITY
        invariant n <= |line| && n <= CAPACITY && l == cursor == 0
        invariant forall i :: 0 <= i < n ==> cmd[i] == line[i]
        invariant forall i :: n <= i < cmd.Length ==> cmd[i] == NUL
      {
        cmd[n] := line[n];
        n := n + 1;
      }
      assert forall i :: 0 <= i < n ==> line[i] in line;
      var len: nat := 0;
      while cmd[len] != NUL
        invariant len <= n
        decreases n - len
      {
        len := len + 1;
      }
      l, cursor := len, len;
      LineIs(line[..n], "");
    }

    method Handle(key: Key)
      requires Valid() && Typeable(key)
      modifies this, cmd
      ensures Valid() && Line() == Press(old(Line()), key)
    {
      match key
      case Insert(c) => InsertChar(c);
      case Backspace => BackspaceKey();
      case BackWord => BackWordKey();
      case ClearLine => ClearLineKey();
      case KillToEnd => KillToEndKey();
      case Recall(line) => RecallLine(line);
      case Redraw =>
      case Left => MoveKey(key);
      case Right => MoveKey(key);
      case _ => JumpKey(key);
    }

    /** Any sequence of keys leaves the buffer sound and does what the zipper does. */
    method HandleAll(keys: seq<Key>)
      requires Valid() && forall k <- keys :: Typeable(k)
      modifies this, cmd
      ensures Valid() && Line() == PressAll(old(Line()), keys)
    {
      for i := 0 to |keys|
        invariant Valid() && PressAll(Line(), keys[i..]) == PressAll(old(Line()), keys)
      {
        assert keys[i] in keys && keys[i..][0] == keys[i] && keys[i..][1..] == keys[i + 1..];
        Handle(keys[i]);
      }
    }
  }
}

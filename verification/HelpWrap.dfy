/** Wrapping of help text at 80 columns (`cli_int_wrap_help_line`). */
module HelpWrap {
  import opened CStrings

  const MAX_WIDTH: nat := 80
  const NAME_WIDTH: nat := 22
  const AVAILABLE: nat := MAX_WIDTH - NAME_WIDTH - 1

  predicate IsLineBreak(c: char) {
    c == '\n' || c == '\r'
  }

  ghost predicate NoBlank(s: string) {
    forall i :: 0 <= i < |s| ==> !IsSpace(s[i])
  }

  ghost predicate AllBlank(s: string) {
    forall i :: 0 <= i < |s| ==> IsSpace(s[i])
  }

  ghost predicate NoLineBreak(s: string) {
    forall i :: 0 <= i < |s| ==> !IsLineBreak(s[i])
  }

  // ----- Where a line ends

  /** The best place to end a line: never after a line break; otherwise at the end of the text if
      that fits, at a line break, before the last blank that fits, or, when nothing that fits is
      blank, at the full width. */
  ghost predicate BestBreak(text: string, n: nat) {
    && n <= |text| && n <= AVAILABLE && NoLineBreak(text[..n])
    && (|| n == |text|
        || IsLineBreak(text[n])
        || (|text| > AVAILABLE && IsSpace(text[n]) && NoBlank(text[n + 1..AVAILABLE + 1]))
        || (|text| > AVAILABLE && n == AVAILABLE && NoBlank(text[..AVAILABLE + 1])))
  }

  lemma BestBreakIsUnique(text: string, m: nat, n: nat)
    requires BestBreak(text, m) && BestBreak(text, n)
    ensures m == n
  {
    BestBreakIsFirst(text, m, n);
    BestBreakIsFirst(text, n, m);
  }

  lemma BestBreakIsFirst(text: string, m: nat, n: nat)
    requires BestBreak(text, m) && BestBreak(text, n)
    ensures n <= m
  {
    assert forall i :: 0 <= i < n ==> text[..n][i] == text[i];
    if |text| > AVAILABLE {
      assert forall i :: 0 <= i <= AVAILABLE ==> text[..AVAILABLE + 1][i] == text[i];
      assert forall i :: m < i <= AVAILABLE ==> text[m + 1..AVAILABLE + 1][i - m - 1] == text[i];
    }
  }

  /** One pass: how many characters of `help` go on this line. */
  method Measure(help: string) returns (toprint: nat)
    ensures BestBreak(help, toprint)
  {
    toprint := |help|;
    if toprint > AVAILABLE {
      var k: int := AVAILABLE;
      while k >= 0 && !IsSpace(help[k])
        invariant -1 <= k <= AVAILABLE
        invariant forall i :: k < i <= AVAILABLE ==> !IsSpace(help[i])
      {
        k := k - 1;
      }
      toprint := if k < 0 then AVAILABLE else k;
    }
    var crlf := 0;
    while crlf < |help| && !IsLineBreak(help[crlf])
      invariant crlf <= |help| && NoLineBreak(help[..crlf])
    {
      crlf := crlf + 1;
    }
    if crlf < toprint {
      toprint := crlf;
    }
  }

  // ----- The lines of a text

  /** What one pass shows and the blanks it then skips. */
  datatype Piece = Piece(shown: string, blanks: string) {
    function Text(): string { shown + blanks }

    /** This piece is the next one of `text`. */
    ghost predicate Starts(text: string) {
      && Text() <= text
      && BestBreak(text, |shown|)
      && AllBlank(blanks)
      && (|Text()| == |text| || !IsSpace(text[|Text()|]))
    }
  }

  /** The pieces, each cut at the best place of what is left, take `text` down to `rest`; once
      nothing is left there is no further piece. */
  ghost predicate Wraps(pieces: seq<Piece>, text: string, rest: string)
    decreases |pieces|
  {
    if pieces == [] then text == rest
    else
      && pieces[0].Starts(text)
      && var left := text[|pieces[0].Text()|..];
        && (left == "" ==> |pieces| == 1)
        && Wraps(pieces[1..], left, rest)
  }

  lemma {:induction false} WrapsOneMore(pieces: seq<Piece>, text: string, rest: string, piece: Piece)
    requires Wraps(pieces, text, rest) && piece.Starts(rest)
    requires pieces != [] ==> rest != ""
    ensures Wraps(pieces + [piece], text, rest[|piece.Text()|..])
  {
    if pieces != [] {
      WrapsOneMore(pieces[1..], text[|pieces[0].Text()|..], rest, piece);
      assert (pieces + [piece])[1..] == pieces[1..] + [piece];
    }
  }

  /** The name in its column, a space, and the help. */
  function Line(name: string, shown: string): string
    requires |name| <= NAME_WIDTH
  {
    name + seq(NAME_WIDTH - |name|, _ => ' ') + " " + shown
  }

  function Lines(name: string, pieces: seq<Piece>): (r: seq<string>)
    requires |name| <= NAME_WIDTH
    decreases |pieces|
  {
    if pieces == [] then [] else [Line(name, pieces[0].shown)] + Lines("", pieces[1..])
  }

  /** A name too long for its column gets a line of its own. */
  function Layout(name: string, pieces: seq<Piece>): seq<string> {
    if |name| > NAME_WIDTH then [name] + Lines("", pieces) else Lines(name, pieces)
  }

  lemma {:induction false} LinesOneMore(name: string, pieces: seq<Piece>, piece: Piece)
    requires |name| <= NAME_WIDTH
    ensures Lines(name, pieces + [piece])
         == Lines(name, pieces) + [Line(if pieces == [] then name else "", piece.shown)]
    decreases |pieces|
  {
    if pieces != [] {
      LinesOneMore("", pieces[1..], piece);
      assert (pieces + [piece])[1..] == pieces[1..] + [piece];
    }
  }

  lemma LayoutOneMore(name: string, pieces: seq<Piece>, piece: Piece)
    ensures pieces != [] ==> Layout(name, pieces + [piece]) == Layout(name, pieces) + [Line("", piece.shown)]
    ensures Layout(name, [piece])
         == if |name| > NAME_WIDTH then [name, Line("", piece.shown)] else [Line(name, piece.shown)]
  {
    var column := if |name| > NAME_WIDTH then "" else name;
    LinesOneMore(column, pieces, piece);
    LinesOneMore(column, [], piece);
    assert [] + [piece] == [piece];
  }

  lemma WrapsNothing(text: string)
    ensures Wraps([], text, text)
  {
  }

  /** One pass over `help`: it makes progress even when it prints nothing. */
  method Pass(help: string) returns (toprint: nat, rest: string, ghost piece: Piece)
    ensures toprint <= |help| && piece.shown == help[..toprint]
    ensures piece.Starts(help) && rest == help[|piece.Text()|..]
    ensures help != "" ==> |rest| < |help|
  {
    toprint := Measure(help);
    var k := toprint;
    while k < |help| && IsSpace(help[k])
      invariant toprint <= k <= |help| && AllBlank(help[toprint..k])
    {
      assert help[toprint..k + 1] == help[toprint..k] + [help[k]];
      k := k + 1;
    }
    rest := help[k..];
    piece := Piece(help[..toprint], help[toprint..k]);
    assert piece.Text() == help[..k];
  }

  // ----- What the reader of the help sees

  /** A line is within the screen, and its help column holds no line break. */
  ghost predicate Tidy(line: string) {
    && 22 < |line| <= 80 && line[22] == ' ' && NoLineBreak(line[23..])
  }

  lemma {:induction false} LinesAreTidy(name: string, pieces: seq<Piece>, text: string)
    requires |name| <= NAME_WIDTH && Wraps(pieces, text, "")
    ensures forall line <- Lines(name, pieces) :: Tidy(line)
    ensures pieces != [] ==> name <= Lines(name, pieces)[0]
    decreases |pieces|
  {
    if pieces != [] {
      var shown := pieces[0].shown;
      assert shown == text[..|shown|];
      assert Line(name, shown)[NAME_WIDTH + 1..] == shown;
      LinesAreTidy("", pieces[1..], text[|pieces[0].Text()|..]);
    }
  }

  /** The characters that are not white space, in order. */
  function Ink(s: string): string {
    if s == "" then "" else (if IsSpace(s[0]) then "" else [s[0]]) + Ink(s[1..])
  }

  lemma {:induction false} InkAppend(s: string, t: string)
    ensures Ink(s + t) == Ink(s) + Ink(t)
  {
    if s == "" {
      assert s + t == t;
    } else {
      assert (s + t)[1..] == s[1..] + t;
      InkAppend(s[1..], t);
    }
  }

  lemma {:induction false} BlankHasNoInk(s: string)
    requires AllBlank(s)
    ensures Ink(s) == ""
  {
    if s != "" {
      assert IsSpace(s[0]);
      assert forall i :: 0 <= i < |s[1..]| ==> s[1..][i] == s[i + 1];
      BlankHasNoInk(s[1..]);
    }
  }

  lemma InkOfFirst(line: string, lines: seq<string>)
    ensures Ink(Glue([line] + lines)) == Ink(line) + Ink(Glue(lines))
  {
    assert ([line] + lines)[1..] == lines;
    InkAppend(line, Glue(lines));
  }

  lemma {:induction false} LinesKeepInk(name: string, pieces: seq<Piece>, text: string)
    requires |name| <= NAME_WIDTH && Wraps(pieces, text, "")
    ensures Ink(Glue(Lines(name, pieces))) == if pieces == [] then "" else Ink(name) + Ink(text)
    decreases |pieces|
  {
    hide Ink, Line, Glue, BestBreak, AllBlank;
    NothingBlank();
    if pieces != [] {
      var left := text[|pieces[0].Text()|..];
      LinesKeepInk("", pieces[1..], left);
      InkOfFirst(Line(name, pieces[0].shown), Lines("", pieces[1..]));
      LineInk(name, pieces[0].shown);
      InkOfPiece(pieces[0], text);
    }
  }

  lemma InkOfPiece(p: Piece, text: string)
    requires p.Starts(text)
    ensures Ink(text) == Ink(p.shown) + Ink(text[|p.Text()|..])
  {
    hide Ink, BestBreak, AllBlank;
    var left := text[|p.Text()|..];
    assert text == p.shown + p.blanks + left;
    InkAppend(p.shown + p.blanks, left);
    InkAppend(p.shown, p.blanks);
    BlankHasNoInk(p.blanks);
  }

  lemma NothingBlank()
    ensures Ink("") == "" && Ink(Glue([])) == ""
  {
  }

  lemma LineInk(name: string, shown: string)
    requires |name| <= NAME_WIDTH
    ensures Ink(Line(name, shown)) == Ink(name) + Ink(shown)
  {
    hide Ink;
    var pad := seq(NAME_WIDTH - |name|, _ => ' ');
    InkAppend(name + pad + " ", shown);
    InkAppend(name + pad, " ");
    InkAppend(name, pad);
    BlankHasNoInk(pad);
    BlankHasNoInk(" ");
  }

  /** Every word of the name and of the help is shown, in order, on lines that fit the screen; only
      a name wider than its column may be a longer line, and then it stands alone. */
  lemma WrappingShowsEverything(name: string, pieces: seq<Piece>, text: string)
    requires pieces != [] && Wraps(pieces, text, "")
    ensures Ink(Glue(Layout(name, pieces))) == Ink(name) + Ink(text)
    ensures forall i :: (if |name| > NAME_WIDTH then 1 else 0) <= i < |Layout(name, pieces)| ==> Tidy(Layout(name, pieces)[i])
    ensures name <= Layout(name, pieces)[0]
  {
    hide Ink, Line, Lines, Wraps;
    if |name| > NAME_WIDTH {
      LinesAreTidy("", pieces, text);
      LinesKeepInk("", pieces, text);
      InkOfFirst(name, Lines("", pieces));
      BlankHasNoInk("");
    } else {
      LinesAreTidy(name, pieces, text);
      LinesKeepInk(name, pieces, text);
    }
  }

  // ----- The loop

  method WrapHelpLine(name: string, help: Option<string>) returns (lines: seq<string>, ghost pieces: seq<Piece>)
    ensures pieces != [] && Wraps(pieces, help.GetOr(""), "")
    ensures lines == Layout(name, pieces)
    ensures Ink(Glue(lines)) == Ink(name) + Ink(help.GetOr(""))
    ensures forall i :: (if |name| > NAME_WIDTH then 1 else 0) <= i < |lines| ==> Tidy(lines[i])
  {
    hide Wraps, Line, Lines, Layout, BestBreak, Piece.Starts, Ink, Glue, Tidy;
    var nameptr, helpptr := name, help.GetOr("");
    WrapsNothing(helpptr);
    lines := [];
    pieces := [];
    var more := true;
    while more
      invariant Wraps(pieces, help.GetOr(""), helpptr)
      invariant lines == if pieces == [] then [] else Layout(name, pieces)
      invariant nameptr == if pieces == [] then name else ""
      invariant more == (pieces == [] || helpptr != "")
      decreases more, |helpptr|
    {
      if |nameptr| > NAME_WIDTH {
        lines := lines + [nameptr];
        nameptr := "";
      }
      var toprint, rest, piece := Pass(helpptr);
      lines := lines + [Line(nameptr, helpptr[..toprint])];
      WrapsOneMore(pieces, help.GetOr(""), helpptr, piece);
      LayoutOneMore(name, pieces, piece);
      assert pieces == [] ==> pieces + [piece] == [piece];
      pieces := pieces + [piece];
      nameptr := "";
      helpptr := rest;
      more := helpptr != "";
    }
    WrappingShowsEverything(name, pieces, help.GetOr(""));
  }

  // ----- How the wrapping is determined

  /** A line ends inside a word only where the whole width, and the place after it, holds no
      blank; such a line is full. */
  lemma {:induction false} WordsStayWhole(pieces: seq<Piece>, text: string, i: nat)
    requires Wraps(pieces, text, "") && i + 1 < |pieces| && pieces[i].blanks == ""
    ensures |pieces[i].shown| == 57 && NoBlank(pieces[i].shown)
    ensures pieces[i + 1].Text() != "" ==> !IsSpace(pieces[i + 1].Text()[0])
  {
    var left := text[|pieces[0].Text()|..];
    if i == 0 {
      var n := |pieces[0].shown|;
      assert pieces[0].shown == text[..n];
      assert text[n] == left[0];
      assert pieces[1].Starts(left);
      assert NoBlank(text[..AVAILABLE + 1]) ==> NoBlank(text[..n]) by {
        assert forall k :: 0 <= k < n ==> text[..AVAILABLE + 1][k] == text[k];
      }
    } else {
      WordsStayWhole(pieces[1..], left, i - 1);
    }
  }

  /** The wrapping is determined by the text. */
  lemma {:induction false} WrappingIsUnique(p: seq<Piece>, q: seq<Piece>, text: string)
    requires p != [] && q != [] && Wraps(p, text, "") && Wraps(q, text, "")
    ensures p == q
  {
    hide BestBreak, AllBlank;
    SamePiece(p[0], q[0], text);
    var left := text[|p[0].Text()|..];
    if left != "" {
      WrappingIsUnique(p[1..], q[1..], left);
    }
    assert p == [p[0]] + p[1..] && q == [q[0]] + q[1..];
  }

  lemma BlanksOf(p: Piece, text: string)
    requires p.Text() <= text
    ensures |p.shown| <= |p.Text()| && p.blanks == text[|p.shown|..|p.Text()|]
  {
    assert p.blanks == p.Text()[|p.shown|..];
    assert text[..|p.Text()|] == p.Text();
  }

  lemma SamePiece(p: Piece, q: Piece, text: string)
    requires p.Starts(text) && q.Starts(text)
    ensures p == q
  {
    BestBreakIsUnique(text, |p.shown|, |q.shown|);
    hide BestBreak;
    var n := |p.shown|;
    assert p.shown == text[..n] == q.shown;
    BlanksOf(p, text);
    BlanksOf(q, text);
    SameBlanks(text, n, |p.Text()|, |q.Text()|);
  }

  lemma SameBlanks(text: string, n: nat, j: nat, k: nat)
    requires n <= j <= |text| && n <= k <= |text| && AllBlank(text[n..j]) && AllBlank(text[n..k])
    requires (j == |text| || !IsSpace(text[j])) && (k == |text| || !IsSpace(text[k]))
    ensures j == k
  {
    assert forall i :: n <= i < j ==> text[n..j][i - n] == text[i];
    assert forall i :: n <= i < k ==> text[n..k][i - n] == text[i];
  }
}

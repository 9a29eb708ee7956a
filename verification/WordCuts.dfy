/** Where a line is cut into words, said about the line itself: its escapes, its quoted sections and
    its runs of plain characters. Every line has exactly one cut, and it gives the words. */
module WordCuts {
  import opened CStrings
  import opened Tokeniser
  import Quoting

  // ----- Escapes

  /** A character of a line, or one together with the backslash before it. */
  datatype Item = Chr(c: char) | Esc(c: char) {
    function Text(): string { if Chr? then [c] else ['\\', c] }

    /** What is left of it in a word: no backslash ever is. */
    function Value(): string { if c == '\\' then "" else [c] }
  }

  function TextOf(items: seq<Item>): string {
    if items == [] then "" else items[0].Text() + TextOf(items[1..])
  }

  function ValueOf(items: seq<Item>): string {
    if items == [] then "" else items[0].Value() + ValueOf(items[1..])
  }

  /** Whether the item before number `i` is an escape; before the first one `skipped` tells. */
  predicate AfterEscape(items: seq<Item>, i: nat, skipped: bool)
    requires i <= |items|
  {
    if i == 0 then skipped else items[i - 1].Esc?
  }

  /** A backslash escapes unless it follows an escape or is the last character of the line. */
  ghost predicate Escaped(items: seq<Item>, skipped: bool) {
    forall i | 0 <= i < |items| ::
      && (items[i].Esc? ==> !AfterEscape(items, i, skipped))
      && (items[i] == Chr('\\') ==> AfterEscape(items, i, skipped) || i == |items| - 1)
  }

  // ----- Tokens

  /** What ends a run of items: outside quotes white space, pipes and quotes; inside, the quote. */
  predicate Stops(q: char, c: char) {
    if q == NUL then IsSpace(c) || c == '|' || c == '"' || c == '\'' else c == q
  }

  predicate Run(items: seq<Item>, q: char) {
    forall i :: 0 <= i < |items| && items[i].Chr? ==> !Stops(q, items[i].c)
  }

  datatype Token =
    | Blank(c: char)
    | Pipe
    | Plain(run: seq<Item>)
    | Quoted(q: char, run: seq<Item>, closed: bool)
    | Dropped(c: char) // an escape between two words
  {
    function Items(): seq<Item> {
      match this
      case Blank(c) => [Chr(c)]
      case Pipe => [Chr('|')]
      case Plain(run) => run
      case Quoted(q, run, closed) => [Chr(q)] + run + if closed then [Chr(q)] else []
      case Dropped(c) => [Esc(c)]
    }

    function Words(): seq<string> {
      match this
      case Pipe => ["|"]
      case Plain(run) => [ValueOf(run)]
      case Quoted(_, run, _) => [ValueOf(run)]
      case _ => []
    }
  }

  function ItemsOf(tokens: seq<Token>): seq<Item> {
    if tokens == [] then [] else tokens[0].Items() + ItemsOf(tokens[1..])
  }

  function WordsOf(tokens: seq<Token>): seq<string> {
    if tokens == [] then [] else tokens[0].Words() + WordsOf(tokens[1..])
  }

  /** Nothing but blanks stands before token `i`, and `first` says the same of what precedes. */
  predicate AtStart(tokens: seq<Token>, i: nat, first: bool)
    requires i <= |tokens|
  {
    first && forall k :: 0 <= k < i ==> tokens[k].Blank?
  }

  predicate AfterPlain(tokens: seq<Token>, i: nat, joined: bool)
    requires i <= |tokens|
  {
    if i == 0 then joined else tokens[i - 1].Plain?
  }

  /** Token `i` may stand where it does: plain runs are as long as they can be, only the first word
      of the line starts with an escape, and only the last quoted section is left open. */
  predicate Fits(tokens: seq<Token>, i: nat, first: bool, joined: bool)
    requires i < |tokens|
  {
    match tokens[i]
    case Blank(c) => IsSpace(c)
    case Pipe => true
    case Plain(run) =>
      && run != [] && Run(run, NUL) && !AfterPlain(tokens, i, joined)
      && (run[0].Esc? ==> AtStart(tokens, i, first))
    case Quoted(q, run, closed) => (q == '"' || q == '\'') && Run(run, q) && (closed || i == |tokens| - 1)
    case Dropped(_) => !AtStart(tokens, i, first) && !AfterPlain(tokens, i, joined)
  }

  ghost predicate Shape(tokens: seq<Token>, first: bool, joined: bool) {
    forall i | 0 <= i < |tokens| :: Fits(tokens, i, first, joined)
  }

  ghost predicate IsCut(line: string, tokens: seq<Token>) {
    TextOf(ItemsOf(tokens)) == line && Escaped(ItemsOf(tokens), false) && Shape(tokens, true, false)
  }

  /** The words of a cut. A line that starts with a pipe has an empty word before it. */
  function CutWords(tokens: seq<Token>): seq<string> {
    (if Piped(tokens) then [""] else []) + WordsOf(tokens)
  }

  predicate Piped(tokens: seq<Token>) {
    exists i :: 0 <= i < |tokens| && tokens[i].Pipe? && AtStart(tokens, i, true)
  }

  function Take(words: seq<string>, room: nat): seq<string> {
    if |words| <= room then words else words[..room]
  }

  // ----- Parts of a cut

  lemma {:induction false} TextAppend(a: seq<Item>, b: seq<Item>)
    ensures TextOf(a + b) == TextOf(a) + TextOf(b)
  {
    if a == [] {
      assert a + b == b;
    } else {
      assert (a + b)[1..] == a[1..] + b;
      TextAppend(a[1..], b);
    }
  }

  lemma {:induction false} UnescapedText(items: seq<Item>)
    ensures Unescaped(TextOf(items)) == ValueOf(items)
  {
    if items != [] {
      UnescapedText(items[1..]);
      var rest := TextOf(items[1..]);
      if items[0].Esc? {
        assert (['\\', items[0].c] + rest)[1..] == [items[0].c] + rest;
      }
      assert ([items[0].c] + rest)[1..] == rest;
    }
  }

  predicate EndFlag(items: seq<Item>, skipped: bool) {
    AfterEscape(items, |items|, skipped)
  }

  lemma EscapedSuffix(a: seq<Item>, b: seq<Item>, skipped: bool)
    requires Escaped(a + b, skipped)
    ensures Escaped(b, EndFlag(a, skipped))
  {
    var s := a + b;
    forall i | 0 <= i < |b|
      ensures AfterEscape(b, i, EndFlag(a, skipped)) == AfterEscape(s, |a| + i, skipped)
      ensures b[i] == s[|a| + i]
    {
    }
  }

  lemma ShapeSuffix(t: Token, rest: seq<Token>, first: bool, joined: bool)
    requires Shape([t] + rest, first, joined)
    ensures Fits([t] + rest, 0, first, joined)
    ensures Shape(rest, first && t.Blank?, t.Plain?)
    ensures ItemsOf([t] + rest) == t.Items() + ItemsOf(rest)
    ensures WordsOf([t] + rest) == t.Words() + WordsOf(rest)
  {
    var all, first', joined' := [t] + rest, first && t.Blank?, t.Plain?;
    assert all[1..] == rest;
    forall i | 0 <= i < |rest|
      ensures Fits(rest, i, first', joined')
    {
      assert Fits(all, i + 1, first, joined);
      FitsShifts(t, rest, i, first, joined);
    }
  }

  lemma StartShifts(t: Token, rest: seq<Token>, i: nat, first: bool)
    requires i <= |rest|
    ensures AtStart([t] + rest, i + 1, first) == AtStart(rest, i, first && t.Blank?)
  {
    var all := [t] + rest;
    assert all[0] == t && forall k :: 0 <= k < i ==> all[k + 1] == rest[k];
  }

  // ----- Scanning a cut line

  /** The words still to come when the escape check of this turn is already `skipped`. */
  ghost function Go(s: Scan, quote: char, room: nat, skipped: bool): seq<string> {
    if !skipped then Lex(s, quote, room)
    else if room == 0 then []
    else if s.rest == "" then Finished(s.word)
    else
      var t := Step(s, quote);
      t.done + Lex(t.next, t.quote, room - |t.done|)
  }

  lemma GoSteps(s: Scan, quote: char, room: nat, skipped: bool)
    requires room > 0 && s.rest != ""
    requires skipped || s.rest[0] != '\\' || |s.rest| == 1
    ensures var t := Step(s, quote);
            Go(s, quote, room, skipped) == t.done + Go(t.next, t.quote, room - |t.done|, false)
  {
    hide Step, Lex;
    LexUnfolds(s, quote, room);
  }

  lemma GoEnds(word: Option<string>, quote: char, room: nat, skipped: bool)
    ensures Go(Scan("", word), quote, 0, skipped) == []
    ensures room > 0 ==> Go(Scan("", word), quote, room, skipped) == Finished(word)
  {
    hide Lex;
    LexUnfolds(Scan("", word), quote, room);
    LexUnfolds(Scan("", word), quote, 0);
  }

  lemma GoNowhere(s: Scan, quote: char, skipped: bool)
    ensures Go(s, quote, 0, skipped) == []
  {
    hide Lex;
    LexUnfolds(s, quote, 0);
  }

  lemma GoEscapes(c: char, rest: string, word: Option<string>, quote: char, room: nat)
    requires room > 0
    ensures Go(Scan(['\\', c] + rest, word), quote, room, false)
         == Go(Scan(rest, if word.Some? then Some(word.value + ['\\', c]) else None), quote, room, true)
  {
    hide Lex, Step;
    var s := Scan(['\\', c] + rest, word);
    assert s.rest[..2] == ['\\', c] && s.rest[2..] == rest;
    LexUnfolds(s, quote, room);
  }

  /** A run extends the open word. */
  lemma {:induction false} RunExtends(run: seq<Item>, tail: seq<Item>, q: char, word: string, room: nat, skipped: bool)
    requires room > 0 && (q == NUL || IsQuote(q)) && Run(run, q) && Escaped(run + tail, skipped)
    ensures Go(Scan(TextOf(run) + TextOf(tail), Some(word)), q, room, skipped)
         == Go(Scan(TextOf(tail), Some(word + TextOf(run))), q, room, EndFlag(run, skipped))
    decreases |run|
  {
    hide Go, Escaped;
    if run == [] {
      assert "" + TextOf(tail) == TextOf(tail) && word + "" == word;
    } else {
      var item, rest := run[0], run[1..];
      var text := TextOf(rest) + TextOf(tail);
      assert run == [item] + rest;
      FirstItem(item, rest, tail, skipped);
      assert item.Text() + text == TextOf(run) + TextOf(tail);
      assert word + item.Text() + TextOf(rest) == word + TextOf(run);
      if item.Esc? {
        GoEscapes(item.c, text, Some(word), q, room);
      } else {
        assert !Stops(q, item.c);
        StepsOver(item.c, text, q, word, room, skipped);
      }
      RunExtends(rest, tail, q, word + item.Text(), room, item.Esc?);
      assert EndFlag(run, skipped) == EndFlag(rest, item.Esc?);
    }
  }

  lemma StepsOver(c: char, text: string, q: char, word: string, room: nat, skipped: bool)
    requires room > 0 && (q == NUL || IsQuote(q)) && !Stops(q, c)
    requires skipped || c != '\\' || text == ""
    ensures Go(Scan([c] + text, Some(word)), q, room, skipped) == Go(Scan(text, Some(word + [c])), q, room, false)
  {
    hide Go;
    assert ([c] + text)[1..] == text;
    GoSteps(Scan([c] + text, Some(word)), q, room, skipped);
  }

  /** What being first in escaped items means for an item. */
  lemma FirstItem(item: Item, rest: seq<Item>, tail: seq<Item>, skipped: bool)
    requires Escaped([item] + rest + tail, skipped)
    ensures Escaped(rest + tail, item.Esc?)
    ensures item.Esc? ==> !skipped
    ensures item == Chr('\\') ==> skipped || TextOf(rest) + TextOf(tail) == ""
  {
    assert [item] + rest + tail == [item] + (rest + tail);
    EscapedSuffix([item], rest + tail, skipped);
    var all := [item] + rest + tail;
    assert all[0] == item && !(item.Esc? && AfterEscape(all, 0, skipped));
  }

  /** After a plain run the line ends, or what comes next ends the word. */
  predicate Closes(items: seq<Item>) {
    items == [] || (items[0].Chr? && Stops(NUL, items[0].c))
  }

  lemma CloseWord(word: string, rest: seq<Item>, room: nat, skipped: bool)
    requires room > 0 && word != "" && Closes(rest)
    ensures Go(Scan(TextOf(rest), Some(word)), NUL, room, skipped)
         == [Unescaped(word)] + Go(Scan(TextOf(rest), None), NUL, room - 1, false)
  {
    hide Go, Unescaped, Lex;
    if rest == [] {
      GoEnds(Some(word), NUL, room, skipped);
      GoEnds(None, NUL, room - 1, false);
    } else {
      var c, text := rest[0].c, TextOf(rest[1..]);
      assert TextOf(rest) == [c] + text && ([c] + text)[1..] == text;
      GoSteps(Scan([c] + text, Some(word)), NUL, room, skipped);
      if IsQuote(c) {
        OpensQuote(c, text, room - 1, false);
      }
    }
  }

  /** Between two words a quote opens a word. */
  lemma OpensQuote(q: char, text: string, room: nat, skipped: bool)
    requires IsQuote(q)
    ensures Go(Scan([q] + text, None), NUL, room, skipped) == Go(Scan(text, Some("")), q, room, false)
  {
    hide Go;
    assert ([q] + text)[1..] == text;
    if room > 0 {
      GoSteps(Scan([q] + text, None), NUL, room, skipped);
    } else {
      GoNowhere(Scan([q] + text, None), NUL, skipped);
      GoNowhere(Scan(text, Some("")), q, false);
    }
  }

  /** A plain run is a word. */
  lemma ScanPlain(run: seq<Item>, rest: seq<Item>, room: nat, skipped: bool)
    requires room > 0 && run != [] && Run(run, NUL) && Closes(rest) && Escaped(run + rest, skipped)
    ensures Go(Scan(TextOf(run) + TextOf(rest), Some("")), NUL, room, skipped)
         == [ValueOf(run)] + Go(Scan(TextOf(rest), None), NUL, room - 1, false)
  {
    hide Go, Unescaped, Escaped;
    RunExtends(run, rest, NUL, "", room, skipped);
    assert "" + TextOf(run) == TextOf(run);
    UnescapedText(run);
    CloseWord(TextOf(run), rest, room, EndFlag(run, skipped));
  }

  /** Between two words a plain character opens a word just as it extends an empty one. */
  lemma OpensPlain(c: char, text: string, room: nat, skipped: bool)
    requires room > 0 && !Stops(NUL, c) && (skipped || c != '\\' || text == "")
    ensures Go(Scan([c] + text, None), NUL, room, skipped) == Go(Scan([c] + text, Some("")), NUL, room, skipped)
  {
    hide Go;
    assert ([c] + text)[1..] == text && "" + [c] == [c];
    GoSteps(Scan([c] + text, None), NUL, room, skipped);
    GoSteps(Scan([c] + text, Some("")), NUL, room, skipped);
  }

  /** A quoted section is a word, open or closed. */
  lemma ScanQuoted(q: char, run: seq<Item>, closed: bool, rest: seq<Item>, room: nat)
    requires room > 0 && IsQuote(q) && Run(run, q) && (closed || rest == [])
    requires Escaped(run + ((if closed then [Chr(q)] else []) + rest), false)
    ensures Go(Scan(TextOf(run + (if closed then [Chr(q)] else []) + rest), Some("")), q, room, false)
         == [ValueOf(run)] + Go(Scan(TextOf(rest), None), NUL, room - 1, false)
  {
    hide Go, Unescaped, Escaped, TextOf, Run;
    var tail := (if closed then [Chr(q)] else []) + rest;
    assert run + (if closed then [Chr(q)] else []) + rest == run + tail;
    TextAppend(run, tail);
    RunExtends(run, tail, q, "", room, false);
    var word := TextOf(run);
    assert "" + word == word;
    UnescapedText(run);
    if closed {
      CloseQuote(q, rest, word, room, EndFlag(run, false));
    } else {
      assert tail == [] && TextOf([]) == "" by { NoText(); }
      GoEnds(Some(word), q, room, EndFlag(run, false));
      GoEnds(None, NUL, room - 1, false);
    }
  }

  lemma NoText()
    ensures TextOf([]) == ""
  {
  }

  lemma CloseQuote(q: char, rest: seq<Item>, word: string, room: nat, skipped: bool)
    requires room > 0 && IsQuote(q)
    ensures Go(Scan(TextOf([Chr(q)] + rest), Some(word)), q, room, skipped)
         == [Unescaped(word)] + Go(Scan(TextOf(rest), None), NUL, room - 1, false)
  {
    hide Go, Unescaped;
    var text := TextOf(rest);
    assert ([Chr(q)] + rest)[1..] == rest && ([q] + text)[1..] == text;
    GoSteps(Scan([q] + text, Some(word)), q, room, skipped);
  }

  lemma TakeFirst(words: seq<string>, rest: seq<string>, room: nat)
    requires |words| <= 1 && (room > 0 || words == [])
    ensures Take(words + rest, room) == words + Take(rest, room - |words|)
  {
    if words == [] {
      assert words + rest == rest;
    }
  }

  /** Whether the next item is escaped does not matter to a character that is no backslash. */
  lemma FlagForgotten(items: seq<Item>, skipped: bool)
    requires Escaped(items, skipped) && Closes(items)
    ensures Escaped(items, false)
  {
    forall i | 0 <= i < |items|
      ensures (items[i].Esc? ==> !AfterEscape(items, i, false))
           && (items[i] == Chr('\\') ==> AfterEscape(items, i, false) || i == |items| - 1)
    {
      assert i > 0 ==> AfterEscape(items, i, false) == AfterEscape(items, i, skipped);
    }
  }

  /** After a plain run comes nothing that could extend it. */
  lemma NextCloses(rest: seq<Token>, first: bool)
    requires Shape(rest, first, true)
    ensures Closes(ItemsOf(rest))
  {
    if rest != [] {
      assert Fits(rest, 0, first, true);
      assert rest[0].Items() != [] && ItemsOf(rest)[0] == rest[0].Items()[0];
    }
  }

  /** From between two words on, the words are those of the tokens, up to the cap. */
  lemma {:induction false} ScanTokens(tokens: seq<Token>, joined: bool, skipped: bool, room: nat)
    requires Shape(tokens, false, joined) && Escaped(ItemsOf(tokens), skipped)
    ensures Go(Scan(TextOf(ItemsOf(tokens)), None), NUL, room, skipped) == Take(WordsOf(tokens), room)
    decreases |tokens|
  {
    hide Go, Escaped, Shape, Run, Take, Stops;
    var text := TextOf(ItemsOf(tokens));
    if room == 0 {
      GoNowhere(Scan(text, None), NUL, skipped);
      assert Take(WordsOf(tokens), 0) == [] by { TakeNone(WordsOf(tokens)); }
    } else if tokens == [] {
      GoEnds(None, NUL, room, skipped);
      TakeNone([]);
    } else {
      var t, rest := tokens[0], tokens[1..];
      assert tokens == [t] + rest;
      ShapeSuffix(t, rest, false, joined);
      EscapedSuffix(t.Items(), ItemsOf(rest), skipped);
      TextAppend(t.Items(), ItemsOf(rest));
      TakeFirst(t.Words(), WordsOf(rest), room);
      ScanToken(t, rest, joined, skipped, room);
      ScanTokens(rest, t.Plain?, if t.Dropped? then true else false, room - |t.Words()|);
    }
  }

  lemma TakeNone(words: seq<string>)
    ensures Take(words, 0) == [] && forall room: nat :: Take([], room) == []
  {
  }

  /** One token and what it leaves to scan. */
  lemma ScanToken(t: Token, rest: seq<Token>, joined: bool, skipped: bool, room: nat)
    requires room > 0 && Fits([t] + rest, 0, false, joined)
    requires Shape(rest, false, t.Plain?) && Escaped(t.Items() + ItemsOf(rest), skipped)
    ensures |t.Words()| <= 1
    ensures Escaped(ItemsOf(rest), t.Dropped?)
    ensures Go(Scan(TextOf(t.Items() + ItemsOf(rest)), None), NUL, room, skipped)
         == t.Words() + Go(Scan(TextOf(ItemsOf(rest)), None), NUL, room - |t.Words()|, t.Dropped?)
  {
    hide Go, Escaped, Shape, Run, TextOf;
    var items := ItemsOf(rest);
    EscapedSuffix(t.Items(), items, skipped);
    match t
    case Dropped(c) => ScanEscape(c, items, room, skipped);
    case Blank(c) => ScanChr(c, items, room, skipped);
    case Pipe => ScanChr('|', items, room, skipped);
    case Plain(run) =>
      NextCloses(rest, false);
      FlagForgotten(items, EndFlag(run, skipped));
      ScanPlainBetween(run, items, room, skipped);
    case Quoted(q, run, closed) =>
      assert !closed ==> rest == [] && items == [];
      EscapedNone(false);
      ScanQuotedBetween(q, run, closed, items, room, skipped);
  }

  lemma EscapedNone(skipped: bool)
    ensures Escaped([], skipped)
  {
  }

  lemma ScanEscape(c: char, rest: seq<Item>, room: nat, skipped: bool)
    requires room > 0 && Escaped([Esc(c)] + rest, skipped)
    ensures Go(Scan(TextOf([Esc(c)] + rest), None), NUL, room, skipped)
         == [] + Go(Scan(TextOf(rest), None), NUL, room, true)
  {
    hide Go, Escaped;
    assert [Esc(c)] + [] + rest == [Esc(c)] + rest && ([Esc(c)] + rest)[1..] == rest;
    FirstItem(Esc(c), [], rest, skipped);
    GoEscapes(c, TextOf(rest), None, NUL, room);
  }

  /** Blanks are skipped, and a pipe is a word. */
  lemma ScanChr(c: char, rest: seq<Item>, room: nat, skipped: bool)
    requires room > 0 && (IsSpace(c) || c == '|')
    ensures Go(Scan(TextOf([Chr(c)] + rest), None), NUL, room, skipped)
         == if c == '|' then ["|"] + Go(Scan(TextOf(rest), None), NUL, room - 1, false)
            else [] + Go(Scan(TextOf(rest), None), NUL, room, false)
  {
    hide Go;
    var text := TextOf(rest);
    assert ([Chr(c)] + rest)[1..] == rest && ([c] + text)[1..] == text;
    GoSteps(Scan([c] + text, None), NUL, room, skipped);
  }

  lemma ScanPlainBetween(run: seq<Item>, rest: seq<Item>, room: nat, skipped: bool)
    requires room > 0 && run != [] && run[0].Chr? && Run(run, NUL) && Closes(rest) && Escaped(run + rest, skipped)
    ensures Go(Scan(TextOf(run + rest), None), NUL, room, skipped)
         == [ValueOf(run)] + Go(Scan(TextOf(rest), None), NUL, room - 1, false)
  {
    hide Go, Escaped, ValueOf;
    ScanPlain(run, rest, room, skipped);
    TextAppend(run, rest);
    assert run == [run[0]] + run[1..];
    FirstItem(run[0], run[1..], rest, skipped);
    var text := TextOf(run[1..]) + TextOf(rest);
    assert TextOf(run) + TextOf(rest) == [run[0].c] + text;
    OpensPlain(run[0].c, text, room, skipped);
  }

  lemma ScanQuotedBetween(q: char, run: seq<Item>, closed: bool, rest: seq<Item>, room: nat, skipped: bool)
    requires room > 0 && IsQuote(q) && Run(run, q) && (closed || rest == [])
    requires Escaped([Chr(q)] + run + (if closed then [Chr(q)] else []) + rest, skipped)
    ensures Go(Scan(TextOf([Chr(q)] + run + (if closed then [Chr(q)] else []) + rest), None), NUL, room, skipped)
         == [ValueOf(run)] + Go(Scan(TextOf(rest), None), NUL, room - 1, false)
  {
    hide Go, Escaped, ValueOf, Run;
    var close := if closed then [Chr(q)] else [];
    var body := run + close + rest;
    assert [Chr(q)] + run + close + rest == [Chr(q)] + body && body == run + (close + rest);
    assert ([Chr(q)] + body)[1..] == body;
    EscapedSuffix([Chr(q)], body, skipped);
    ScanQuoted(q, run, closed, rest, room);
    OpensQuote(q, TextOf(body), room, skipped);
  }

  // ----- Scanning a whole line

  lemma {:induction false} ScanLine(tokens: seq<Token>, room: nat)
    requires Shape(tokens, true, false) && Escaped(ItemsOf(tokens), false)
    ensures Words(TextOf(ItemsOf(tokens)), room) == Take(CutWords(tokens), room)
    decreases |tokens|
  {
    hide Go, Escaped, Shape, Lex, Take, WordsOf;
    if tokens == [] {
      LexUnfolds(Scan("", None), NUL, room);
      NoTokens(room);
    } else {
      var t, rest := tokens[0], tokens[1..];
      assert tokens == [t] + rest;
      ShapeSuffix(t, rest, true, false);
      if t.Blank? {
        EscapedSuffix(t.Items(), ItemsOf(rest), false);
        ScanLine(rest, room);
        BlankFirst(t, rest, room);
      } else {
        ScanFirst(t, rest, room);
      }
    }
  }

  lemma NoTokens(room: nat)
    ensures Take(CutWords([]), room) == []
  {
  }

  lemma BlankFirst(t: Token, rest: seq<Token>, room: nat)
    requires t.Blank? && IsSpace(t.c)
    ensures Words(TextOf(ItemsOf([t] + rest)), room) == Words(TextOf(ItemsOf(rest)), room)
    ensures CutWords([t] + rest) == CutWords(rest)
  {
    var all := [t] + rest;
    assert all[1..] == rest && all[0] == t;
    PipeShifts(t, rest);
    assert [] + WordsOf(rest) == WordsOf(rest);
    var items := ItemsOf(rest);
    assert ItemsOf(all) == [Chr(t.c)] + items && ([Chr(t.c)] + items)[1..] == items;
    hide ItemsOf, WordsOf;
    var text := TextOf(items);
    assert TextOf([Chr(t.c)] + items) == [t.c] + text && ([t.c] + text)[1..] == text;
  }

  lemma PipeShifts(t: Token, rest: seq<Token>)
    requires t.Blank?
    ensures Piped([t] + rest) == Piped(rest)
  {
    var all := [t] + rest;
    if Piped(rest) {
      var i :| 0 <= i < |rest| && rest[i].Pipe? && AtStart(rest, i, true);
      StartShifts(t, rest, i, true);
      assert all[i + 1] == rest[i];
    }
    if Piped(all) {
      var i :| 0 <= i < |all| && all[i].Pipe? && AtStart(all, i, true);
      assert i > 0 && rest[i - 1] == all[i];
      StartShifts(t, rest, i - 1, true);
    }
  }

  /** The first token that is not blank. */
  lemma ScanFirst(t: Token, rest: seq<Token>, room: nat)
    requires !t.Blank? && Fits([t] + rest, 0, true, false)
    requires Shape(rest, false, t.Plain?) && Escaped(t.Items() + ItemsOf(rest), false)
    ensures Words(TextOf(ItemsOf([t] + rest)), room) == Take(CutWords([t] + rest), room)
  {
    hide *;
    FirstToken(t, rest);
    FirstFits(t, rest);
    var items, words := ItemsOf(rest), WordsOf(rest);
    NotBlank(t, items, room);
    if room == 0 {
      GoNowhere(Scan(TextOf(t.Items() + items), Some("")), NUL, false);
      TakeNone(CutWords([t] + rest));
    } else if t.Pipe? {
      ScanPipeFirst(t, rest, room);
    } else {
      ScanOtherFirst(t, rest, room);
      ScanTokens(rest, t.Plain?, false, room - 1);
      TakeFirst(t.Words(), words, room);
    }
  }

  lemma FirstFits(t: Token, rest: seq<Token>)
    requires !t.Blank? && Fits([t] + rest, 0, true, false)
    ensures t.Plain? || t.Pipe? || t.Quoted?
    ensures t.Plain? ==> t.run != [] && Run(t.run, NUL)
    ensures t.Quoted? ==> IsQuote(t.q) && Run(t.run, t.q) && (t.closed || ItemsOf(rest) == [])
    ensures !t.Pipe? ==> |t.Words()| == 1
  {
    assert AtStart([t] + rest, 0, true);
  }

  lemma ScanOtherFirst(t: Token, rest: seq<Token>, room: nat)
    requires room > 0 && (t.Plain? || t.Quoted?) && Shape(rest, false, t.Plain?)
    requires t.Plain? ==> t.run != [] && Run(t.run, NUL)
    requires t.Quoted? ==> IsQuote(t.q) && Run(t.run, t.q) && (t.closed || ItemsOf(rest) == [])
    requires Escaped(t.Items() + ItemsOf(rest), false)
    ensures Escaped(ItemsOf(rest), false)
    ensures Go(Scan(TextOf(t.Items() + ItemsOf(rest)), Some("")), NUL, room, false)
         == t.Words() + Go(Scan(TextOf(ItemsOf(rest)), None), NUL, room - 1, false)
  {
    hide Go, Escaped, Shape, Run, TextOf, ItemsOf;
    var items := ItemsOf(rest);
    if t.Plain? {
      ScanPlainFirst(t.run, rest, room);
    } else {
      ScanQuotedFirst(t, items, room);
      EscapedSuffix(t.Items(), items, false);
      EscapedNone(false);
    }
  }

  lemma FirstToken(t: Token, rest: seq<Token>)
    requires !t.Blank?
    ensures ItemsOf([t] + rest) == t.Items() + ItemsOf(rest)
    ensures CutWords([t] + rest) == (if t.Pipe? then [""] else []) + (t.Words() + WordsOf(rest))
    ensures !t.Pipe? ==> CutWords([t] + rest) == t.Words() + WordsOf(rest)
  {
    var all := [t] + rest;
    assert all[1..] == rest && all[0] == t && AtStart(all, 0, true);
    assert [] + WordsOf(all) == WordsOf(all);
  }

  lemma ScanPlainFirst(run: seq<Item>, rest: seq<Token>, room: nat)
    requires room > 0 && run != [] && Run(run, NUL) && Shape(rest, false, true) && Escaped(run + ItemsOf(rest), false)
    ensures Escaped(ItemsOf(rest), false)
    ensures Go(Scan(TextOf(run + ItemsOf(rest)), Some("")), NUL, room, false)
         == [ValueOf(run)] + Go(Scan(TextOf(ItemsOf(rest)), None), NUL, room - 1, false)
  {
    hide Go, Escaped, Shape, Run, TextOf;
    var items := ItemsOf(rest);
    NextCloses(rest, false);
    EscapedSuffix(run, items, false);
    FlagForgotten(items, EndFlag(run, false));
    TextAppend(run, items);
    ScanPlain(run, items, room, false);
  }

  /** A line that does not start with a blank is scanned with an empty word open. */
  lemma NotBlank(t: Token, items: seq<Item>, room: nat)
    requires t.Plain? || t.Pipe? || (t.Quoted? && IsQuote(t.q))
    requires t.Plain? ==> t.run != [] && Run(t.run, NUL)
    ensures Words(TextOf(t.Items() + items), room)
         == Go(Scan(TextOf(t.Items() + items), Some("")), NUL, room, false)
  {
    hide Lex;
    var all := t.Items() + items;
    assert all[0] == t.Items()[0];
    hide Token.Items;
    assert TextOf(all) == all[0].Text() + TextOf(all[1..]);
    assert !IsSpace(TextOf(all)[0]);
  }

  lemma ScanPipeFirst(t: Token, rest: seq<Token>, room: nat)
    requires room > 0 && t.Pipe? && Shape(rest, false, false) && Escaped(t.Items() + ItemsOf(rest), false)
    ensures Go(Scan(TextOf(t.Items() + ItemsOf(rest)), Some("")), NUL, room, false)
         == Take([""] + (t.Words() + WordsOf(rest)), room)
  {
    hide Go, Escaped, Shape, Take;
    var items := ItemsOf(rest);
    var text := TextOf(items);
    assert ([Chr('|')] + items)[1..] == items && ("|" + text)[1..] == text;
    EscapedSuffix([Chr('|')], items, false);
    GoSteps(Scan("|" + text, Some("")), NUL, room, false);
    TakeFirst([""], ["|"] + WordsOf(rest), room);
    if room == 1 {
      GoNowhere(Scan("|" + text, None), NUL, false);
      TakeNone(["|"] + WordsOf(rest));
    } else {
      ScanChr('|', items, room - 1, false);
      ScanTokens(rest, false, false, room - 2);
      TakeFirst(["|"], WordsOf(rest), room - 1);
    }
  }

  lemma ScanQuotedFirst(t: Token, items: seq<Item>, room: nat)
    requires room > 0 && t.Quoted? && IsQuote(t.q) && Run(t.run, t.q) && (t.closed || items == [])
    requires Escaped(t.Items() + items, false)
    ensures Go(Scan(TextOf(t.Items() + items), Some("")), NUL, room, false)
         == t.Words() + Go(Scan(TextOf(items), None), NUL, room - 1, false)
  {
    hide Go, Escaped, Run, ValueOf;
    ScanQuotedBetween(t.q, t.run, t.closed, items, room, false);
    var body := t.run + (if t.closed then [Chr(t.q)] else []) + items;
    assert t.Items() + items == [Chr(t.q)] + body && ([Chr(t.q)] + body)[1..] == body;
    OpensQuote(t.q, TextOf(body), room, false);
    var text := [t.q] + TextOf(body);
    assert text[1..] == TextOf(body);
    GoSteps(Scan(text, Some("")), NUL, room, false);
  }

  /** The words of a line are those of its cut, up to the cap. */
  lemma WordsAreCut(line: string, tokens: seq<Token>, room: nat)
    requires IsCut(line, tokens)
    ensures Words(line, room) == Take(CutWords(tokens), room)
  {
    ScanLine(tokens, room);
  }

  // ----- Every line has just one cut

  lemma {:induction false} ItemsExist(line: string, skipped: bool) returns (items: seq<Item>)
    ensures TextOf(items) == line && Escaped(items, skipped)
  {
    if line == "" {
      return [];
    }
    var item := if !skipped && line[0] == '\\' && |line| > 1 then Esc(line[1]) else Chr(line[0]);
    var n := |item.Text()|;
    var rest := ItemsExist(line[n..], item.Esc?);
    items := [item] + rest;
    assert items[1..] == rest && line == item.Text() + line[n..];
    EscapedCons(item, rest, skipped);
  }

  lemma EscapedCons(item: Item, rest: seq<Item>, skipped: bool)
    requires Escaped(rest, item.Esc?) && (item.Esc? ==> !skipped)
    requires item == Chr('\\') ==> skipped || rest == []
    ensures Escaped([item] + rest, skipped)
  {
    var all := [item] + rest;
    forall i | 0 <= i < |all|
      ensures (all[i].Esc? ==> !AfterEscape(all, i, skipped))
           && (all[i] == Chr('\\') ==> AfterEscape(all, i, skipped) || i == |all| - 1)
    {
      if i > 0 {
        assert all[i] == rest[i - 1] && AfterEscape(all, i, skipped) == AfterEscape(rest, i - 1, item.Esc?);
      }
    }
  }

  lemma {:induction false} ItemsUnique(a: seq<Item>, b: seq<Item>, skipped: bool)
    requires TextOf(a) == TextOf(b) && Escaped(a, skipped) && Escaped(b, skipped)
    ensures a == b
    decreases |a|
  {
    if a != [] && b != [] {
      FirstText(a, skipped);
      FirstText(b, skipped);
      assert a[0] == b[0];
      var n := |a[0].Text()|;
      assert TextOf(a)[n..] == TextOf(a[1..]) && TextOf(b)[n..] == TextOf(b[1..]);
      ItemsUnique(a[1..], b[1..], a[0].Esc?);
      assert a == [a[0]] + a[1..] && b == [b[0]] + b[1..];
    }
  }

  /** The text decides the first item. */
  lemma FirstText(items: seq<Item>, skipped: bool)
    requires items != [] && Escaped(items, skipped)
    ensures var text := TextOf(items);
            && text != ""
            && items[0] == (if !skipped && text[0] == '\\' && |text| > 1 then Esc(text[1]) else Chr(text[0]))
            && Escaped(items[1..], items[0].Esc?)
  {
    var item, rest := items[0], items[1..];
    assert items == [item] + rest && [item] + rest + [] == items && rest + [] == rest;
    FirstItem(item, rest, [], skipped);
  }

  /** The longest run at the head of some items. */
  function RunAt(items: seq<Item>, q: char): (run: seq<Item>)
    ensures run <= items && Run(run, q)
    ensures |run| < |items| ==> items[|run|].Chr? && Stops(q, items[|run|].c)
  {
    if items == [] || (items[0].Chr? && Stops(q, items[0].c)) then []
    else
      assert items == [items[0]] + items[1..];
      [items[0]] + RunAt(items[1..], q)
  }

  /** The token at the head of some items. */
  function TokenAt(items: seq<Item>, first: bool): (t: Token)
    requires items != []
    ensures t.Items() != [] && t.Items() <= items
  {
    var item := items[0];
    if item.Esc? && !first then Dropped(item.c)
    else if item.Chr? && IsSpace(item.c) then Blank(item.c)
    else if item == Chr('|') then Pipe
    else if item.Chr? && IsQuote(item.c) then
      var run := RunAt(items[1..], item.c);
      assert [item] + run <= items;
      Quoted(item.c, run, |run| + 1 < |items|)
    else Plain(RunAt(items, NUL))
  }

  lemma {:induction false} TokensExist(items: seq<Item>, first: bool, joined: bool) returns (tokens: seq<Token>)
    requires joined ==> !first && Closes(items)
    ensures ItemsOf(tokens) == items && Shape(tokens, first, joined)
    decreases |items|
  {
    hide Shape, ItemsOf, RunAt, Run;
    if items == [] {
      NoTokensShape(first, joined);
      return [];
    }
    var t := TokenAt(items, first);
    var left := items[|t.Items()|..];
    assert items == t.Items() + left;
    var rest := TokensExist(left, first && t.Blank?, t.Plain?) by {
      TokenStops(items, first);
    }
    tokens := [t] + rest;
    ShapeCons(t, rest, items, first, joined);
  }

  lemma NoTokensShape(first: bool, joined: bool)
    ensures Shape([], first, joined) && ItemsOf([]) == []
  {
  }

  lemma TokenStops(items: seq<Item>, first: bool)
    requires items != []
    ensures var t := TokenAt(items, first);
            && (t.Plain? ==> Closes(items[|t.Items()|..]))
            && (t.Quoted? && !t.closed ==> items[|t.Items()|..] == [])
  {
  }

  lemma FitsShifts(t: Token, rest: seq<Token>, i: nat, first: bool, joined: bool)
    requires i < |rest|
    ensures Fits([t] + rest, i + 1, first, joined) == Fits(rest, i, first && t.Blank?, t.Plain?)
  {
    hide Run;
    StartShifts(t, rest, i, first);
    assert ([t] + rest)[i + 1] == rest[i];
  }

  lemma FirstTokenFits(items: seq<Item>, rest: seq<Token>, first: bool, joined: bool)
    requires items != [] && (joined ==> !first && Closes(items))
    requires ItemsOf(rest) == items[|TokenAt(items, first).Items()|..]
    requires Shape(rest, first && TokenAt(items, first).Blank?, TokenAt(items, first).Plain?)
    ensures Fits([TokenAt(items, first)] + rest, 0, first, joined)
  {
    hide Run, RunAt;
    TokenStops(items, first);
    var t := TokenAt(items, first);
    var all := [t] + rest;
    assert all[0] == t && AtStart(all, 0, first) == first;
    if rest != [] {
      assert Fits(rest, 0, first && t.Blank?, t.Plain?);
      assert rest[0].Items() != [] && rest[0].Items() <= ItemsOf(rest);
    }
  }

  lemma ShapeCons(t: Token, rest: seq<Token>, items: seq<Item>, first: bool, joined: bool)
    requires items != [] && t == TokenAt(items, first) && (joined ==> !first && Closes(items))
    requires Shape(rest, first && t.Blank?, t.Plain?) && ItemsOf(rest) == items[|t.Items()|..]
    ensures Shape([t] + rest, first, joined) && ItemsOf([t] + rest) == items
  {
    hide Fits, TokenAt;
    var all, first', joined' := [t] + rest, first && t.Blank?, t.Plain?;
    assert all[1..] == rest;
    FirstTokenFits(items, rest, first, joined);
    forall i | 0 <= i < |all|
      ensures Fits(all, i, first, joined)
    {
      if i > 0 {
        FitsShifts(t, rest, i - 1, first, joined);
        assert Fits(rest, i - 1, first', joined');
      }
    }
  }

  /** The items decide the first token. */
  lemma FirstTokenIs(t: Token, rest: seq<Token>, first: bool, joined: bool)
    requires Shape([t] + rest, first, joined)
    ensures t.Items() + ItemsOf(rest) != [] && t == TokenAt(t.Items() + ItemsOf(rest), first)
  {
    ShapeSuffix(t, rest, first, joined);
    hide Shape, Run, RunAt, ItemsOf;
    assert AtStart([t] + rest, 0, first) == first;
    match t
    case Plain(run) =>
      NextCloses(rest, false);
      PlainIs(run, ItemsOf(rest), first);
    case Quoted(q, run, closed) =>
      NoItems(rest);
      QuotedIs(q, run, closed, ItemsOf(rest), first);
    case _ =>
  }

  lemma NoItems(rest: seq<Token>)
    ensures rest == [] ==> ItemsOf(rest) == []
  {
  }

  lemma PlainIs(run: seq<Item>, rest: seq<Item>, first: bool)
    requires run != [] && Run(run, NUL) && Closes(rest) && (run[0].Esc? ==> first)
    ensures TokenAt(run + rest, first) == Plain(run)
  {
    RunIs(run, rest, NUL);
    hide RunAt;
    assert (run + rest)[0] == run[0] && (run[0].Chr? ==> !Stops(NUL, run[0].c));
  }

  lemma QuotedIs(q: char, run: seq<Item>, closed: bool, rest: seq<Item>, first: bool)
    requires (q == '"' || q == '\'') && Run(run, q) && (closed || rest == [])
    ensures TokenAt([Chr(q)] + run + (if closed then [Chr(q)] else []) + rest, first) == Quoted(q, run, closed)
  {
    var close := (if closed then [Chr(q)] else []) + rest;
    var items := [Chr(q)] + run + (if closed then [Chr(q)] else []) + rest;
    assert items == [Chr(q)] + (run + close) && items[1..] == run + close;
    RunIs(run, close, q);
    hide RunAt, Run;
  }

  lemma {:induction false} RunIs(run: seq<Item>, rest: seq<Item>, q: char)
    requires Run(run, q) && (rest == [] || (rest[0].Chr? && Stops(q, rest[0].c)))
    ensures RunAt(run + rest, q) == run
  {
    if run == [] {
      assert run + rest == rest;
    } else {
      assert (run + rest)[1..] == run[1..] + rest && run == [run[0]] + run[1..];
      RunIs(run[1..], rest, q);
    }
  }

  lemma {:induction false} TokensUnique(a: seq<Token>, b: seq<Token>, first: bool, joined: bool)
    requires ItemsOf(a) == ItemsOf(b) && Shape(a, first, joined) && Shape(b, first, joined)
    ensures a == b
    decreases |a|
  {
    hide Shape, TokenAt, Fits;
    if a != [] && b != [] {
      assert a == [a[0]] + a[1..] && b == [b[0]] + b[1..];
      FirstTokenIs(a[0], a[1..], first, joined);
      FirstTokenIs(b[0], b[1..], first, joined);
      ShapeSuffix(a[0], a[1..], first, joined);
      ShapeSuffix(b[0], b[1..], first, joined);
      var n := |a[0].Items()|;
      assert ItemsOf(a)[n..] == ItemsOf(a[1..]) && ItemsOf(b)[n..] == ItemsOf(b[1..]);
      TokensUnique(a[1..], b[1..], first && a[0].Blank?, a[0].Plain?);
    } else if a != [] {
      assert a == [a[0]] + a[1..];
      FirstTokenIs(a[0], a[1..], first, joined);
    } else if b != [] {
      assert b == [b[0]] + b[1..];
      FirstTokenIs(b[0], b[1..], first, joined);
    }
  }

  /** A line has only one cut. */
  lemma CutIsUnique(line: string, a: seq<Token>, b: seq<Token>)
    requires IsCut(line, a) && IsCut(line, b)
    ensures a == b
  {
    ItemsUnique(ItemsOf(a), ItemsOf(b), false);
    TokensUnique(a, b, true, false);
  }

  /** Every line has a cut. */
  lemma CutExists(line: string) returns (tokens: seq<Token>)
    ensures IsCut(line, tokens)
  {
    var items := ItemsExist(line, false);
    tokens := TokensExist(items, true, false);
  }

  // ----- A quote inside a text

  /** Between two words a line is read as from its start, unless it goes on with a pipe, which at the
      start has an empty word before it, or with an escape, which at the start is part of a word. */
  lemma {:induction false} BetweenIsStart(tail: string, room: nat)
    requires TrimLeft(tail) == "" || TrimLeft(tail)[0] !in "|\\"
    ensures Lex(Scan(tail, None), NUL, room) == Words(tail, room)
  {
    hide Lex, Unescaped;
    LexUnfolds(Scan(tail, None), NUL, room);
    LexUnfolds(Scan(tail, Some("")), NUL, room);
    if room > 0 && tail != "" {
      if IsSpace(tail[0]) {
        BetweenIsStart(tail[1..], room);
      } else {
        assert "" + [tail[0]] == [tail[0]];
      }
    }
  }

  /** A quote that directly follows a word ends it and opens the next one, which the same quote
      closes. */
  lemma QuoteEndsWord(w: string, q: char, run: string, tail: string, room: nat)
    requires w != "" && forall c <- w :: !IsSpace(c) && c !in "|\"'\\"
    requires q in "\"'" && q !in run && '\\' !in run
    requires TrimLeft(tail) == "" || TrimLeft(tail)[0] !in "|\\"
    ensures Words(w + [q] + run + [q] + tail, room + 2) == [w, run] + Words(tail, room)
  {
    hide Lex, Words, TrimLeft, IsSpace;
    var quoted := run + [q] + tail;
    assert w + [q] + run + [q] + tail == w + ([q] + quoted);
    WordFirst(w, [q] + quoted, room + 2);
    QuoteAfterWord(w, q, quoted, room + 2);
    Quoting.LexQuotedRun(run, q, tail, "", room + 1);
    assert "" + run == run;
    BetweenIsStart(tail, room);
    assert [w] + ([run] + Words(tail, room)) == [w, run] + Words(tail, room);
  }

  lemma WordFirst(w: string, more: string, room: nat)
    requires w != "" && room > 0 && forall c <- w :: !IsSpace(c) && c !in "|\"'\\"
    ensures Words(w + more, room) == Lex(Scan(more, Some(w)), NUL, room)
  {
    hide Lex;
    assert w[0] in w && (w + more)[0] == w[0] && TrimLeft(w + more) == w + more;
    Quoting.LexPlainRun(w, more, "", room);
    assert "" + w == w;
  }

  lemma QuoteAfterWord(w: string, q: char, text: string, room: nat)
    requires w != "" && '\\' !in w && q in "\"'" && room > 0
    ensures Lex(Scan([q] + text, Some(w)), NUL, room) == [w] + Lex(Scan(text, Some("")), q, room - 1)
  {
    hide Lex, Unescaped;
    assert ([q] + text)[1..] == text;
    LexUnfolds(Scan([q] + text, Some(w)), NUL, room);
    NoBackslash(w);
  }

  lemma NoBackslash(w: string)
    requires '\\' !in w
    ensures Unescaped(w) == w
  {
  }
}

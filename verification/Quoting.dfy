/** The quoting printer, `cli_int_buildmode_extend_cmdline`, against the tokeniser. */
module Quoting {
  import opened CStrings
  import opened Tokeniser

  /** The quote that the walk over `word` settles on, when `q` was chosen so far. */
  function ChooseQuote(word: string, q: char): char {
    if word == "" then q
    else if |word| >= 2 && word[0] == '\\' then ChooseQuote(word[2..], q)
    else if word[0] == '"' then '\''
    else if word[0] == '\'' then '"'
    else ChooseQuote(word[1..], if word[0] == ' ' && q == NUL then '"' else q)
  }

  /** The quote put around a printed word, or NUL for none. */
  function QuoteFor(word: string): char {
    ChooseQuote(word, if word == "" then '"' else NUL)
  }

  function Wrap(word: string, q: char): string {
    if q == NUL then word else [q] + word + [q]
  }

  function Quoted(word: string): string {
    Wrap(word, QuoteFor(word))
  }

  method ExtendCmdline(cmdline: string, word: string) returns (extended: string)
    requires NulFree(word)
    ensures extended == cmdline + " " + Quoted(word)
  {
    var quote := NUL;
    if |word| == 0 {
      quote := '"';
    }
    var i: nat := 0;
    while At(word, i) != NUL
      invariant i <= |word|
      invariant ChooseQuote(word[i..], quote) == QuoteFor(word)
      decreases |word| - i
    {
      if At(word, i) == '\\' && At(word, i + 1) != NUL {
        i := i + 1;
        assert word[i - 1..][2..] == word[i + 1..];
      } else if At(word, i) == ' ' && quote == NUL {
        quote := '"';
      } else if At(word, i) == '"' {
        quote := '\'';
        break;
      } else if At(word, i) == '\'' {
        quote := '"';
        break;
      }
      i := i + 1;
    }
    extended := cmdline + " " + Wrap(word, quote);
  }

  /** The words that survive printing and tokenising: no backslash, not both kinds of quote, and
      word-ending characters only where a space or a quote makes the printer add quotes (or where
      the word is a lone pipe). */
  predicate Quotable(w: string) {
    && '\\' !in w
    && !('"' in w && '\'' in w)
    && (w == "" || w == "|" || ' ' in w || '"' in w || '\'' in w || forall c <- w :: !EndsWord(c))
  }

  /** What the printer appends for a list of words. */
  function PrintAll(ws: seq<string>): string {
    if ws == [] then "" else " " + Quoted(ws[0]) + PrintAll(ws[1..])
  }

  // ----- The quote that is chosen

  lemma {:induction false} ChosenQuote(w: string, q: char)
    requires '\\' !in w && (q == NUL || q == '"')
    ensures '"' !in w && '\'' !in w ==>
              ChooseQuote(w, q) == if q == '"' || ' ' in w then '"' else NUL
    ensures '"' in w && '\'' !in w ==> ChooseQuote(w, q) == '\''
    ensures '\'' in w && '"' !in w ==> ChooseQuote(w, q) == '"'
    ensures '\'' in w && '"' in w ==> ChooseQuote(w, q) in w && IsQuote(ChooseQuote(w, q))
  {
    if w != "" {
      assert w == [w[0]] + w[1..];
      if !IsQuote(w[0]) {
        ChosenQuote(w[1..], if w[0] == ' ' && q == NUL then '"' else q);
      }
    }
  }

  /** The number of backslashes directly before position `i`. */
  function Slashes(w: string, i: nat): nat
    requires i <= |w|
  {
    if i > 0 && w[i - 1] == '\\' then 1 + Slashes(w, i - 1) else 0
  }

  /** The character at position `i` is `c`, and no backslash protects it. */
  predicate Bare(w: string, i: nat, c: char)
    requires i < |w|
  {
    Slashes(w, i) % 2 == 0 && w[i] == c
  }

  /** The quote is decided by the bare characters of the word: the first bare quote asks for the other
      kind, and without one an empty word or a bare space asks for double quotes. */
  lemma QuoteForExactly(w: string)
    ensures forall i | 0 <= i < |w| && FirstQuote(w, 0, i) ::
              QuoteFor(w) == if w[i] == '"' then '\'' else '"'
    ensures (forall i :: 0 <= i < |w| ==> !Bare(w, i, '"') && !Bare(w, i, '\'')) ==>
              QuoteFor(w) == if w == "" || exists i :: 0 <= i < |w| && Bare(w, i, ' ') then '"' else NUL
  {
    assert w[0..] == w;
    var q := if w == "" then '"' else NUL;
    forall i | 0 <= i < |w| && FirstQuote(w, 0, i)
      ensures ChooseQuote(w, q) == if w[i] == '"' then '\'' else '"'
    {
      ChosenByQuote(w, 0, q, i);
    }
    if forall i :: 0 <= i < |w| ==> !Bare(w, i, '"') && !Bare(w, i, '\'') {
      ChosenBySpace(w, 0, q);
    }
  }

  /** The first bare quote from `from` on is at `i`. */
  predicate FirstQuote(w: string, from: nat, i: nat)
    requires i < |w|
  {
    && from <= i && (Bare(w, i, '"') || Bare(w, i, '\''))
    && forall k :: from <= k < i ==> !Bare(w, k, '"') && !Bare(w, k, '\'')
  }

  lemma {:induction false} ChosenByQuote(w: string, from: nat, q: char, i: nat)
    requires from <= i < |w| && Slashes(w, from) % 2 == 0 && FirstQuote(w, from, i)
    ensures ChooseQuote(w[from..], q) == if w[i] == '"' then '\'' else '"'
    decreases |w| - from
  {
    var rest := w[from..];
    if w[from] == '\\' && from + 1 < |w| {
      assert rest[2..] == w[from + 2..] && Slashes(w, from + 1) % 2 == 1;
      ChosenByQuote(w, from + 2, q, i);
    } else if !IsQuote(w[from]) {
      assert rest[1..] == w[from + 1..];
      ChosenByQuote(w, from + 1, if w[from] == ' ' && q == NUL then '"' else q, i);
    } else {
      assert Bare(w, from, w[from]);
    }
  }

  lemma {:induction false} ChosenBySpace(w: string, from: nat, q: char)
    requires from <= |w| && (from == |w| || Slashes(w, from) % 2 == 0) && (q == NUL || q == '"')
    requires forall i :: from <= i < |w| ==> !Bare(w, i, '"') && !Bare(w, i, '\'')
    ensures ChooseQuote(w[from..], q) == if q == '"' || exists i :: from <= i < |w| && Bare(w, i, ' ') then '"' else NUL
    decreases |w| - from
  {
    if from < |w| {
      var rest := w[from..];
      assert Bare(w, from, w[from]);
      if w[from] == '\\' && from + 1 < |w| {
        assert rest[2..] == w[from + 2..] && Slashes(w, from + 1) % 2 == 1;
        ChosenBySpace(w, from + 2, q);
      } else {
        assert rest[1..] == w[from + 1..];
        ChosenBySpace(w, from + 1, if w[from] == ' ' && q == NUL then '"' else q);
      }
    }
  }

  // ----- Tokenising what was printed

  /** Plain characters extend the open word. */
  lemma {:induction false} LexPlainRun(run: string, tail: string, word: string, room: nat)
    requires room > 0
    requires forall c <- run :: !EndsWord(c) && !IsQuote(c) && c != '\\'
    ensures Lex(Scan(run + tail, Some(word)), NUL, room) == Lex(Scan(tail, Some(word + run)), NUL, room)
  {
    hide Lex;
    if run == "" {
      assert run + tail == tail && word + run == word;
    } else {
      assert forall c <- run[1..] :: c in run;
      assert run[0] in run;
      LexUnfolds(Scan(run + tail, Some(word)), NUL, room);
      assert (run + tail)[1..] == run[1..] + tail;
      LexPlainRun(run[1..], tail, word + [run[0]], room);
      assert word + [run[0]] + run[1..] == word + run;
    }
  }

  /** Everything up to the closing quote extends the quoted word. */
  lemma {:induction false} LexQuotedRun(run: string, q: char, tail: string, word: string, room: nat)
    requires room > 0 && IsQuote(q)
    requires forall c <- run :: c != q && c != '\\'
    requires '\\' !in word
    ensures Lex(Scan(run + [q] + tail, Some(word)), q, room)
         == [word + run] + Lex(Scan(tail, None), NUL, room - 1)
  {
    hide Lex;
    LexUnfolds(Scan(run + [q] + tail, Some(word)), q, room);
    assert (run + [q] + tail)[0] == if run == "" then q else run[0];
    if run == "" {
      assert (run + [q] + tail)[1..] == tail;
      assert word + run == word;
    } else {
      assert forall c <- run[1..] :: c in run;
      assert run[0] in run;
      assert (run + [q] + tail)[1..] == run[1..] + [q] + tail;
      LexQuotedRun(run[1..], q, tail, word + [run[0]], room);
      assert word + [run[0]] + run[1..] == word + run;
    }
  }

  /** A space between two words is skipped. */
  lemma LexSkipsSpace(tail: string, room: nat)
    requires room > 0
    ensures Lex(Scan(" " + tail, None), NUL, room) == Lex(Scan(tail, None), NUL, room)
  {
    hide Lex, Unescaped;
    LexUnfolds(Scan(" " + tail, None), NUL, room);
    assert (" " + tail)[1..] == tail;
  }

  /** Entering a quoted word from between two words. */
  lemma LexOpensQuote(body: string, q: char, room: nat)
    requires room > 0 && IsQuote(q)
    ensures Lex(Scan(" " + [q] + body, None), NUL, room) == Lex(Scan(body, Some("")), q, room)
  {
    hide Lex, Unescaped;
    LexSkipsSpace([q] + body, room);
    assert " " + [q] + body == " " + ([q] + body) && ([q] + body)[1..] == body;
    LexUnfolds(Scan([q] + body, None), NUL, room);
  }

  /** Entering an unquoted word from between two words. */
  lemma LexOpensPlain(c: char, body: string, room: nat)
    requires room > 0 && !EndsWord(c) && !IsQuote(c) && c != '\\'
    ensures Lex(Scan(" " + [c] + body, None), NUL, room) == Lex(Scan(body, Some([c])), NUL, room)
  {
    hide Lex, Unescaped;
    LexSkipsSpace([c] + body, room);
    assert " " + [c] + body == " " + ([c] + body) && ([c] + body)[1..] == body;
    LexUnfolds(Scan([c] + body, None), NUL, room);
  }

  /** The end of the line or a space completes an unquoted word. */
  lemma LexClosesPlain(word: string, tail: string, room: nat)
    requires room > 0 && '\\' !in word
    requires tail == "" || tail[0] == ' '
    ensures Lex(Scan(tail, Some(word)), NUL, room) == [word] + Lex(Scan(tail, None), NUL, room - 1)
  {
    hide Lex;
    LexUnfolds(Scan(tail, Some(word)), NUL, room);
    LexUnfolds(Scan(tail, None), NUL, room - 1);
  }

  lemma LexLonePipe(tail: string, room: nat)
    requires room > 0
    ensures Lex(Scan(" |" + tail, None), NUL, room) == ["|"] + Lex(Scan(tail, None), NUL, room - 1)
  {
    hide Lex, Unescaped;
    LexSkipsSpace("|" + tail, room);
    assert " |" + tail == " " + ("|" + tail) && ("|" + tail)[1..] == tail;
    LexUnfolds(Scan("|" + tail, None), NUL, room);
  }

  lemma PrintedQuoted(w: string, q: char, tail: string, room: nat)
    requires IsQuote(q) && q !in w && '\\' !in w && room > 0
    ensures Lex(Scan(" " + Wrap(w, q) + tail, None), NUL, room)
         == [w] + Lex(Scan(tail, None), NUL, room - 1)
  {
    hide Lex, Wrap;
    WrapText(w, q, tail);
    LexOpensQuote(w + [q] + tail, q, room);
    LexQuotedRun(w, q, tail, "", room);
    assert "" + w == w;
  }

  lemma WrapText(w: string, q: char, tail: string)
    requires q != NUL
    ensures " " + Wrap(w, q) + tail == " " + [q] + (w + [q] + tail)
  {
  }

  lemma PrintedPlain(w: string, tail: string, room: nat)
    requires w != "" && room > 0
    requires forall c <- w :: !EndsWord(c) && !IsQuote(c) && c != '\\'
    requires tail == "" || tail[0] == ' '
    ensures Lex(Scan(" " + w + tail, None), NUL, room) == [w] + Lex(Scan(tail, None), NUL, room - 1)
  {
    hide Lex, EndsWord;
    assert w == [w[0]] + w[1..] && w[0] in w && forall c <- w[1..] :: c in w;
    assert " " + w + tail == " " + [w[0]] + (w[1..] + tail);
    LexOpensPlain(w[0], w[1..] + tail, room);
    LexPlainRun(w[1..], tail, [w[0]], room);
    LexClosesPlain(w, tail, room);
  }

  /** One printed word is tokenised back to itself. */
  lemma PrintedWord(w: string, tail: string, room: nat)
    requires Quotable(w) && NulFree(w) && room > 0
    requires tail == "" || tail[0] == ' '
    ensures Lex(Scan(" " + Quoted(w) + tail, None), NUL, room)
         == [w] + Lex(Scan(tail, None), NUL, room - 1)
  {
    hide Lex, ChooseQuote, EndsWord;
    ChosenQuote(w, if w == "" then '"' else NUL);
    if QuoteFor(w) != NUL {
      PrintedQuoted(w, QuoteFor(w), tail, room);
    } else if w == "|" {
      assert " " + w + tail == " |" + tail;
      LexLonePipe(tail, room);
    } else {
      PrintedPlain(w, tail, room);
    }
  }

  lemma {:induction false} PrintedWords(ws: seq<string>, room: nat)
    requires forall w <- ws :: Quotable(w) && NulFree(w)
    requires |ws| <= room
    ensures Lex(Scan(PrintAll(ws), None), NUL, room) == ws
  {
    hide Lex, ChooseQuote;
    LexUnfolds(Scan("", None), NUL, room);
    if ws != [] {
      PrintedWord(ws[0], PrintAll(ws[1..]), room);
      PrintedWords(ws[1..], room - 1);
      assert [ws[0]] + ws[1..] == ws;
    }
  }

  // ----- Appending to a command name

  predicate PlainChar(c: char) {
    !IsQuote(c) && c != '\\'
  }

  /** A turn on plain text does not look at what follows that text. */
  lemma StepIsLocal(text: string, tail: string, word: Option<string>)
    requires text != "" && PlainChar(text[0])
    ensures var t := Step(Scan(text, word), NUL);
            && Step(Scan(text + tail, word), NUL)
               == Turn(t.done, Scan(t.next.rest + tail, t.next.word), NUL)
            && t.quote == NUL && t.next.rest == (if t.next.rest == text then text else text[1..])
  {
    assert (text + tail)[1..] == text[1..] + tail;
  }

  /** The scan of plain text that is followed by a space splits there. */
  lemma {:induction false} LexSplits(text: string, tail: string, word: Option<string>, room: nat)
    requires forall c <- text :: PlainChar(c)
    requires tail == "" || tail[0] == ' '
    ensures var first := Lex(Scan(text, word), NUL, room);
            Lex(Scan(text + tail, word), NUL, room) == first + Lex(Scan(tail, None), NUL, room - |first|)
    decreases |text|, word.Some?
  {
    hide Lex, Step, Unescaped;
    LexUnfolds(Scan(text, word), NUL, room);
    LexUnfolds(Scan(text + tail, word), NUL, room);
    LexUnfolds(Scan(tail, None), NUL, 0);
    if room > 0 && text == "" {
      assert text + tail == tail;
      SpaceEndsWord(tail, word, room);
    } else if room > 0 {
      assert text[0] in text && (text + tail)[0] == text[0];
      StepIsLocal(text, tail, word);
      var t := Step(Scan(text, word), NUL);
      LexSplits(t.next.rest, tail, t.next.word, room - |t.done|);
      var rest := Lex(Scan(t.next.rest, t.next.word), NUL, room - |t.done|);
      var more := Lex(Scan(tail, None), NUL, room - |t.done| - |rest|);
      assert t.done + (rest + more) == (t.done + rest) + more;
    }
  }

  lemma SpaceEndsWord(tail: string, word: Option<string>, room: nat)
    requires room > 0 && (tail == "" || tail[0] == ' ')
    ensures Lex(Scan(tail, word), NUL, room)
         == Finished(word) + Lex(Scan(tail, None), NUL, room - |Finished(word)|)
  {
    hide Lex;
    LexUnfolds(Scan(tail, word), NUL, room);
    if tail == "" {
      LexUnfolds(Scan(tail, None), NUL, room - |Finished(word)|);
    }
  }

  /** A command name as it is registered: no quotes, no backslashes, not blank. */
  ghost predicate CommandName(name: string) {
    NulFree(name) && (forall c <- name :: PlainChar(c)) && TrimLeft(name) != ""
  }

  lemma {:induction false} TrimStopsInName(name: string, tail: string)
    requires TrimLeft(name) != ""
    ensures TrimLeft(name + tail) == TrimLeft(name) + tail
  {
    if name != "" && IsSpace(name[0]) {
      assert (name + tail)[1..] == name[1..] + tail;
      TrimStopsInName(name[1..], tail);
    }
  }

  /** Text printed after a command name adds its own words to those of the name. */
  lemma WordsAfterName(name: string, tail: string, room: nat)
    requires CommandName(name)
    requires tail == "" || tail[0] == ' '
    ensures Words(name + tail, room)
         == Words(name, room) + Lex(Scan(tail, None), NUL, room - |Words(name, room)|)
  {
    hide Lex, TrimLeft;
    TrimStopsInName(name, tail);
    var text := TrimLeft(name);
    assert text == name[|name| - |text|..];
    assert forall c <- text :: c in name;
    LexSplits(text, tail, Some(""), room);
  }

  lemma PrintAllStarts(ws: seq<string>)
    ensures PrintAll(ws) == "" || PrintAll(ws)[0] == ' '
  {
  }

  /** Quoting and tokenising undo each other. */
  lemma RoundTrip(name: string, ws: seq<string>, room: nat)
    requires CommandName(name)
    requires forall w <- ws :: Quotable(w) && NulFree(w)
    requires |Words(name, room)| + |ws| <= room
    ensures Words(name + PrintAll(ws), room) == Words(name, room) + ws
  {
    hide Lex, Words, PrintAll, Quotable, CommandName;
    PrintAllStarts(ws);
    WordsAfterName(name, PrintAll(ws), room);
    PrintedWords(ws, room - |Words(name, room)|);
  }

  // ----- Exactly which words survive

  /** Outside quotes a word never contains a word-ending character, unless it is a lone pipe. */
  lemma {:induction false} LexUnquotedWords(text: string, word: Option<string>, room: nat)
    requires forall c <- text :: PlainChar(c)
    requires word.Some? ==> forall c <- word.value :: !EndsWord(c) && PlainChar(c)
    ensures forall w <- Lex(Scan(text, word), NUL, room) :: w == "|" || forall c <- w :: !EndsWord(c)
    decreases |text|, word.Some?
  {
    hide Lex, Unescaped;
    LexUnfolds(Scan(text, word), NUL, room);
    if room > 0 && text != "" {
      assert text[0] in text && forall c <- text[1..] :: c in text;
      var t := Step(Scan(text, word), NUL);
      LexUnquotedWords(t.next.rest, t.next.word, room - |t.done|);
    }
  }

  /** A quoted word ends at the first occurrence of its quote, however much text is left. */
  lemma {:induction false} LexStopsAtQuote(run: string, q: char, tail: string, word: string, room: nat)
    requires room > 0 && IsQuote(q) && q in run
    requires '\\' !in run && '\\' !in word
    ensures var words := Lex(Scan(run + tail, Some(word)), q, room);
            words != [] && |words[0]| < |word| + |run|
  {
    hide Lex;
    assert run == [run[0]] + run[1..] && (run + tail)[1..] == run[1..] + tail;
    LexUnfolds(Scan(run + tail, Some(word)), q, room);
    if run[0] != q {
      assert forall c <- run[1..] :: c in run;
      LexStopsAtQuote(run[1..], q, tail, word + [run[0]], room);
    }
  }

  lemma NotQuotableIsLost(w: string, room: nat)
    requires !Quotable(w)
    ensures Lex(Scan(" " + Quoted(w), None), NUL, room) != [w]
  {
    hide Lex, ChooseQuote;
    LexDropsBackslashes(Scan(" " + Quoted(w), None), NUL, room);
    if '\\' !in w && room > 0 {
      ChosenQuote(w, if w == "" then '"' else NUL);
      var q := QuoteFor(w);
      if '"' in w && '\'' in w {
        assert " " + Quoted(w) == " " + [q] + (w + [q]);
        LexOpensQuote(w + [q], q, room);
        LexStopsAtQuote(w, q, [q], "", room);
      } else {
        assert " " + Quoted(w) == [' '] + w;
        LexUnquotedWords([' '] + w, None, room);
        assert w !in Lex(Scan(" " + Quoted(w), None), NUL, room);
      }
    }
    LexUnfolds(Scan(" " + Quoted(w), None), NUL, 0);
  }

  /** A single printed word comes back as itself exactly when it is quotable. */
  lemma RoundTripExactly(name: string, w: string, room: nat)
    requires CommandName(name) && NulFree(w)
    requires |Words(name, room)| < room
    ensures Words(name + " " + Quoted(w), room) == Words(name, room) + [w] <==> Quotable(w)
  {
    hide Lex, Words, Quoted;
    assert name + " " + Quoted(w) == name + (" " + Quoted(w));
    WordsAfterName(name, " " + Quoted(w), room);
    var left := room - |Words(name, room)|;
    var words := Lex(Scan(" " + Quoted(w), None), NUL, left);
    assert Words(name + " " + Quoted(w), room)[|Words(name, room)|..] == words;
    if Quotable(w) {
      PrintedWord(w, "", left);
      LexUnfolds(Scan("", None), NUL, left - 1);
      assert " " + Quoted(w) + "" == " " + Quoted(w);
    } else {
      NotQuotableIsLost(w, left);
      assert (Words(name, room) + [w])[|Words(name, room)|..] == [w];
    }
  }
}

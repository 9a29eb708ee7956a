/** The tokeniser: `cli_parse_line` and `cli_int_return_newword`. */
module Tokeniser {
  import opened CStrings

  const MAX_LINE_WORDS: nat := 128

  /** The text of a word with every backslash deleted. */
  function Unescaped(raw: string): (r: string)
    ensures '\\' !in r
    ensures '\\' !in raw ==> r == raw
  {
    if raw == "" then ""
    else if raw[0] == '\\' then Unescaped(raw[1..])
    else [raw[0]] + Unescaped(raw[1..])
  }

  method ReturnNewWord(raw: string) returns (word: string)
    ensures word == Unescaped(raw)
  {
    hide Unescaped;
    word := "";
    var start := 0;
    assert raw[0..] == raw && "" + Unescaped(raw) == Unescaped(raw);
    while start != |raw|
      invariant start <= |raw|
      invariant word + Unescaped(raw[start..]) == Unescaped(raw)
    {
      UnescapedNext(raw, start);
      if raw[start] != '\\' {
        word := word + [raw[start]];
      }
      start := start + 1;
    }
    UnescapedNext(raw, start);
  }

  lemma UnescapedNext(raw: string, i: nat)
    requires i <= |raw|
    ensures i == |raw| ==> Unescaped(raw[i..]) == ""
    ensures i < |raw| ==>
              Unescaped(raw[i..]) == (if raw[i] == '\\' then "" else [raw[i]]) + Unescaped(raw[i + 1..])
  {
    if i < |raw| {
      assert raw[i..] == [raw[i]] + raw[i + 1..] && raw[i..][1..] == raw[i + 1..];
      assert "" + Unescaped(raw[i + 1..]) == Unescaped(raw[i + 1..]);
    }
  }

  /** White space and pipes end an open word outside quotes. */
  predicate EndsWord(c: char) {
    IsSpace(c) || c == '|'
  }

  /** The state of the scan: the unread text and, when a word is open, its raw text so far. */
  datatype Scan = Scan(rest: string, word: Option<string>) {
    /** The text that still has to be delivered. */
    function Pending(): string {
      if word.Some? then word.value + rest else rest
    }
  }

  /** A backslash that is not the last character carries the next one with it. */
  function SkipEscape(s: Scan): (r: Scan)
    ensures |r.rest| <= |s.rest| && r.word.Some? == s.word.Some?
    ensures '\\' !in s.rest ==> r == s
  {
    if |s.rest| >= 2 && s.rest[0] == '\\' then
      Scan(s.rest[2..], if s.word.Some? then Some(s.word.value + s.rest[..2]) else None)
    else
      s
  }

  function Finished(word: Option<string>): seq<string> {
    if word.Some? then [Unescaped(word.value)] else []
  }

  /** One turn of the main loop: the word it completes, if any, and the scan and quote it leaves. */
  datatype Turn = Turn(done: seq<string>, next: Scan, quote: char)

  function Step(s: Scan, quote: char): (t: Turn)
    requires s.rest != ""
    ensures |t.done| <= 1
    ensures |t.next.rest| < |s.rest| || (t.next.rest == s.rest && s.word.Some? && t.next.word.None?)
  {
    var c, tail := s.rest[0], s.rest[1..];
    if quote != NUL && c == quote then
      Turn(Finished(s.word), Scan(tail, None), NUL)
    else if s.word.Some? && quote == NUL && EndsWord(c) then
      Turn(Finished(s.word), Scan(s.rest, None), NUL)
    else if quote == NUL && IsQuote(c) then
      Turn(if s.word == Some("") then [] else Finished(s.word), Scan(tail, Some("")), c)
    else if s.word.Some? then
      Turn([], Scan(tail, Some(s.word.value + [c])), quote)
    else if c == '|' then
      Turn(["|"], Scan(tail, None), quote)
    else
      Turn([], Scan(tail, if IsSpace(c) then None else Some([c])), quote)
  }

  /** The words still to come, at most `room` of them. `quote` is the open quote, or NUL. */
  function Lex(from: Scan, quote: char, room: nat): (words: seq<string>)
    ensures |words| <= room
    decreases |from.rest|, from.word.Some?
  {
    if room == 0 then []
    else
      var s := SkipEscape(from);
      if s.rest == "" then Finished(s.word)
      else
        var t := Step(s, quote);
        t.done + Lex(t.next, t.quote, room - |t.done|)
  }

  /** The defining equation of `Lex`, for proofs that keep its body hidden. */
  lemma LexUnfolds(from: Scan, quote: char, room: nat)
    ensures room == 0 ==> Lex(from, quote, room) == []
    ensures room > 0 && SkipEscape(from).rest == "" ==>
              Lex(from, quote, room) == Finished(SkipEscape(from).word)
    ensures room > 0 && SkipEscape(from).rest != "" ==>
              var t := Step(SkipEscape(from), quote);
              Lex(from, quote, room) == t.done + Lex(t.next, t.quote, room - |t.done|)
  {
  }

  /** The words of a line, when there is space for `room` of them. */
  function Words(line: string, room: nat): (words: seq<string>)
    ensures |words| <= room
  {
    var text := TrimLeft(line);
    Lex(Scan(text, if text == "" then None else Some("")), NUL, room)
  }

  /** The scan that the pointers `p` and `word_start` of the C code stand for. */
  function ScanAt(line: string, p: nat, wordStart: Option<nat>): Scan
    requires p <= |line|
    requires wordStart.Some? ==> wordStart.value <= p
  {
    Scan(line[p..], if wordStart.Some? then Some(line[wordStart.value..p]) else None)
  }

  method SkipSpaces(line: string) returns (p: nat, wordStart: Option<nat>)
    requires NulFree(line)
    ensures p <= |line| && wordStart == if p < |line| then Some(p) else None
    ensures line[p..] == TrimLeft(line)
  {
    p, wordStart := 0, None;
    while At(line, p) != NUL
      invariant p <= |line| && wordStart.None?
      invariant TrimLeft(line[p..]) == TrimLeft(line)
      decreases |line| - p
    {
      if !IsSpace(At(line, p)) {
        wordStart := Some(p);
        break;
      }
      p := p + 1;
    }
  }

  /** The body of the main loop after the escape check: the word it stores, the new pointers, and
      whether the end of the line was reached. */
  method ScanChar(line: string, p0: nat, start0: Option<nat>, quote0: char)
    returns (done: seq<string>, p: nat, wordStart: Option<nat>, quote: char, ended: bool)
    requires NulFree(line) && p0 <= |line|
    requires start0.Some? ==> start0.value <= p0
    ensures p0 <= p <= |line| && (wordStart.Some? ==> wordStart.value <= p)
    ensures ended <==> p0 == |line|
    ensures ended ==> done == Finished(ScanAt(line, p0, start0).word)
    ensures !ended ==> (p == p0 ==> start0.Some? && wordStart.None?)
    ensures !ended ==> Step(ScanAt(line, p0, start0), quote0) == Turn(done, ScanAt(line, p, wordStart), quote)
  {
    done, p, wordStart, quote, ended := [], p0, start0, quote0, At(line, p0) == NUL;
    if p0 < |line| {
      assert line[p0..] == [line[p0]] + line[p0 + 1..];
      assert line[p0..p0 + 1] == [line[p0]] && line[p0 + 1..p0 + 1] == "";
      assert start0.Some? ==> line[start0.value..p0 + 1] == line[start0.value..p0] + [line[p0]];
    }
    if At(line, p) == NUL || At(line, p) == quote || (wordStart.Some? && quote == NUL && EndsWord(At(line, p))) {
      if wordStart.Some? {
        var word := ReturnNewWord(line[wordStart.value..p]);
        done := [word];
      }
      if ended {
        return;
      }
      if quote != NUL {
        p := p + 1;
      }
      quote, wordStart := NUL, None;
    } else if quote == NUL && IsQuote(At(line, p)) {
      if wordStart.Some? && wordStart.value != p {
        var word := ReturnNewWord(line[wordStart.value..p]);
        done := [word];
      }
      quote := At(line, p);
      p := p + 1;
      wordStart := Some(p);
    } else {
      if wordStart.None? {
        if At(line, p) == '|' {
          done := ["|"];
        } else if !IsSpace(At(line, p)) {
          wordStart := Some(p);
        }
      }
      p := p + 1;
    }
  }

  /** The whole body of the main loop, but for storing the word. */
  method ScanTurn(line: string, p0: nat, start0: Option<nat>, quote0: char, ghost room: nat)
    returns (done: seq<string>, p: nat, wordStart: Option<nat>, quote: char, ended: bool)
    requires NulFree(line) && p0 <= |line| && room > 0
    requires start0.Some? ==> start0.value <= p0
    ensures p0 <= p <= |line| && (wordStart.Some? ==> wordStart.value <= p)
    ensures |done| <= 1
    ensures Lex(ScanAt(line, p0, start0), quote0, room)
         == done + if ended then [] else Lex(ScanAt(line, p, wordStart), quote, room - |done|)
    ensures !ended && p == p0 ==> start0.Some? && wordStart.None?
  {
    hide Lex, Step, SkipEscape, ScanAt, Unescaped;
    p := p0;
    PastEscape(line, p, start0);
    LexUnfolds(ScanAt(line, p, start0), quote0, room);
    if At(line, p) == '\\' && At(line, p + 1) != NUL {
      p := p + 2;
    }
    done, p, wordStart, quote, ended := ScanChar(line, p, start0, quote0);
  }

  /** `words` is the part of the caller's array that has been filled; its length is `nwords`. */
  method ParseLine(line: string, maxWords: nat) returns (words: seq<string>)
    requires NulFree(line) && maxWords > 0
    ensures |words| <= maxWords - 1
    ensures words == Words(line, maxWords - 1)
  {
    hide *;
    words := [];
    var p: nat, wordStart: Option<nat> := SkipSpaces(line);
    var quote := NUL;
    WordsFrom(line, p, wordStart, maxWords - 1);
    while |words| < maxWords - 1
      invariant p <= |line| && |words| <= maxWords - 1
      invariant wordStart.Some? ==> wordStart.value <= p
      invariant words + Lex(ScanAt(line, p, wordStart), quote, maxWords - 1 - |words|)
             == Words(line, maxWords - 1)
      decreases |line| - p, wordStart.Some?
    {
      var done: seq<string>, ended;
      done, p, wordStart, quote, ended := ScanTurn(line, p, wordStart, quote, maxWords - 1 - |words|);
      words := words + done;
      if ended {
        break;
      }
    }
  }

  lemma WordsFrom(line: string, p: nat, wordStart: Option<nat>, room: nat)
    requires p <= |line| && line[p..] == TrimLeft(line)
    requires wordStart == if p < |line| then Some(p) else None
    ensures Words(line, room) == Lex(ScanAt(line, p, wordStart), NUL, room)
  {
    assert line[p..p] == "";
  }

  /** The escape check of the loop, on the scan that the pointers stand for. */
  lemma PastEscape(line: string, p: nat, wordStart: Option<nat>)
    requires NulFree(line) && p <= |line|
    requires wordStart.Some? ==> wordStart.value <= p
    ensures var q := if At(line, p) == '\\' && At(line, p + 1) != NUL then p + 2 else p;
            && SkipEscape(ScanAt(line, p, wordStart)) == ScanAt(line, q, wordStart)
            && (ScanAt(line, q, wordStart).rest == "" <==> At(line, q) == NUL)
  {
    if At(line, p) == '\\' && At(line, p + 1) != NUL {
      assert line[p..][2..] == line[p + 2..];
      if wordStart.Some? {
        assert line[wordStart.value..p] + line[p..][..2] == line[wordStart.value..p + 2];
      }
    }
  }

  // ----- Conservation

  /** The characters that the tokeniser must not lose: neither white space nor quotes. */
  function Ink(s: string): string {
    if s == "" then ""
    else (if IsSpace(s[0]) || IsQuote(s[0]) then "" else [s[0]]) + Ink(s[1..])
  }

  lemma {:induction false} InkAppend(s: string, t: string)
    ensures Ink(s + t) == Ink(s) + Ink(t)
  {
    if s == "" {
      assert s + t == t;
    } else {
      assert (s + t)[1..] == s[1..] + t;
      InkAppend(s[1..], t);
    }
  }

  /** A turn either moves a character into the open word or completes a word and moves on. */
  lemma StepShape(s: Scan, quote: char)
    requires s.rest != ""
    ensures var t := Step(s, quote);
            var c, tail := s.rest[0], s.rest[1..];
            || (t.done == [] && t.next.Pending() == s.Pending())
            || (t.done == [] && s.word.None? && t.next.Pending() == tail && (IsSpace(c) || IsQuote(c) || c == quote))
            || (s.word.Some? && t.next.Pending() == tail && (IsQuote(c) || c == quote)
                && (t.done == Finished(s.word) || (t.done == [] && s.word.value == "")))
            || (t.done == Finished(s.word) && t.next.Pending() == s.rest)
            || (t.done == ["|"] && s.word.None? && c == '|' && t.next.Pending() == tail)
  {
    hide Unescaped, IsSpace, IsQuote;
    var c, tail := s.rest[0], s.rest[1..];
    Regroup(if s.word.Some? then s.word.value else "", s.rest);
    if !(quote != NUL && c == quote) && !(s.word.Some? && quote == NUL && EndsWord(c)) {
      if quote == NUL && IsQuote(c) {
        assert Step(s, quote).next == Scan(tail, Some(""));
      } else if s.word.Some? {
        assert Step(s, quote).next == Scan(tail, Some(s.word.value + [c]));
      }
    }
  }

  lemma Regroup(word: string, rest: string)
    requires rest != ""
    ensures (word + [rest[0]]) + rest[1..] == word + rest
    ensures [rest[0]] + rest[1..] == rest && "" + rest[1..] == rest[1..]
  {
  }

  /** One turn moves the text of the word it completes out of the pending text and drops only
      white space and quotes. */
  lemma StepConserves(s: Scan, quote: char)
    requires s.rest != "" && '\\' !in s.Pending()
    requires quote == NUL || IsQuote(quote)
    requires NulFree(s.rest)
    ensures var t := Step(s, quote);
            && '\\' !in t.next.Pending() && NulFree(t.next.rest)
            && (t.quote == NUL || IsQuote(t.quote))
            && Ink(s.Pending()) == Ink(Glue(t.done)) + Ink(t.next.Pending())
  {
    hide Ink, Glue, Unescaped, IsSpace;
    StepKeeps(s, quote);
    StepInk(s, quote);
  }

  lemma StepKeeps(s: Scan, quote: char)
    requires s.rest != "" && '\\' !in s.Pending() && NulFree(s.rest)
    ensures '\\' !in Step(s, quote).next.Pending() && NulFree(Step(s, quote).next.rest)
  {
    hide Unescaped, IsSpace;
    StepShape(s, quote);
    assert forall x <- s.rest :: x in s.Pending();
    assert forall x <- s.rest[1..] :: x in s.rest;
  }

  lemma StepInk(s: Scan, quote: char)
    requires s.rest != "" && '\\' !in s.Pending() && NulFree(s.rest)
    requires quote == NUL || IsQuote(quote)
    ensures Ink(s.Pending()) == Ink(Glue(Step(s, quote).done)) + Ink(Step(s, quote).next.Pending())
  {
    hide Ink, Glue, Step, IsSpace, IsQuote;
    StepShape(s, quote);
    var c, tail := s.rest[0], s.rest[1..];
    assert c in s.rest;
    var word := if s.word.Some? then s.word.value else "";
    assert s.rest == [c] + tail && word + s.rest == s.Pending();
    InkOne(c, tail);
    InkAppend(word, s.rest);
    GlueOne(word);
    PipeInk();
  }

  lemma PipeInk()
    ensures Ink(Glue(["|"])) == "|" && !IsSpace('|') && !IsQuote('|')
    ensures Ink(Glue([])) == ""
  {
    GlueOne("|");
  }

  lemma InkOne(c: char, tail: string)
    ensures Ink([c] + tail) == (if IsSpace(c) || IsQuote(c) then "" else [c]) + Ink(tail)
    ensures Ink("") == "" && Glue([]) == ""
  {
  }

  lemma {:induction false} LexConserves(from: Scan, quote: char, room: nat)
    requires '\\' !in from.Pending() && NulFree(from.rest)
    requires quote == NUL || IsQuote(quote)
    ensures Ink(Glue(Lex(from, quote, room))) <= Ink(from.Pending())
    ensures |Lex(from, quote, room)| < room ==> Ink(Glue(Lex(from, quote, room))) == Ink(from.Pending())
    decreases |from.rest|, from.word.Some?
  {
    hide Lex, Step, Ink, Glue, Unescaped;
    assert forall c <- from.rest :: c in from.Pending();
    LexUnfolds(from, quote, room);
    InkOne('|', "");
    if room > 0 && from.rest == "" {
      assert from.word.Some? ==> from.word.value == from.Pending();
      GlueOne(from.Pending());
    } else if room > 0 {
      var t := Step(from, quote);
      StepConserves(from, quote);
      LexConserves(t.next, t.quote, room - |t.done|);
      var more := Lex(t.next, t.quote, room - |t.done|);
      GlueAppend(t.done, more);
      InkAppend(Glue(t.done), Glue(more));
    }
  }

  /** On a line without backslashes the tokeniser neither loses, invents nor reorders ink; only
      the cap on the number of words cuts the line short. */
  lemma WordsConserveInk(line: string, room: nat)
    requires NulFree(line) && '\\' !in line
    ensures Ink(Glue(Words(line, room))) <= Ink(line)
    ensures |Words(line, room)| < room ==> Ink(Glue(Words(line, room))) == Ink(line)
  {
    var text := TrimLeft(line);
    var start := Scan(text, if text == "" then None else Some(""));
    assert start.Pending() == text;
    LexConserves(start, NUL, room);
    TrimKeepsInk(line);
  }

  lemma {:induction false} TrimKeepsInk(line: string)
    ensures Ink(TrimLeft(line)) == Ink(line)
  {
    if line != "" && IsSpace(line[0]) {
      TrimKeepsInk(line[1..]);
    }
  }

  /** The hypothesis on backslashes is needed: between two words an escape vanishes together with
      the character it protects, whatever that character is. */
  lemma EscapeBetweenWordsVanishes(c: char, tail: string, quote: char, room: nat)
    requires |tail| < 2 || tail[0] != '\\'
    ensures Lex(Scan(['\\', c] + tail, None), quote, room) == Lex(Scan(tail, None), quote, room)
  {
    hide Lex, Step;
    assert (['\\', c] + tail)[2..] == tail;
    LexUnfolds(Scan(['\\', c] + tail, None), quote, room);
    LexUnfolds(Scan(tail, None), quote, room);
  }

  /** No word of a line contains a backslash. */
  lemma {:induction false} LexDropsBackslashes(from: Scan, quote: char, room: nat)
    ensures forall w <- Lex(from, quote, room) :: '\\' !in w
    decreases |from.rest|, from.word.Some?
  {
    var s := SkipEscape(from);
    if room > 0 && s.rest != "" {
      var t := Step(s, quote);
      LexDropsBackslashes(t.next, t.quote, room - |t.done|);
    }
  }
}

/** Byte strings as the C code sees them: the characters before the terminator, and the
    few `ctype.h`/`strings.h` routines that the command engine relies on. */
module CStrings {

  datatype Option<+T> = None | Some(value: T) {
    function GetOr(default: T): T {
      if Some? then value else default
    }
  }

  const NUL: char := '\0'

  /** A C string: its terminator is not one of its characters. */
  ghost predicate NulFree(s: string) {
    NUL !in s
  }

  /** What reading `s[i]` yields; the precondition is the claim that nothing beyond the
      terminator is read. */
  function At(s: string, i: nat): char
    requires i <= |s|
  {
    if i < |s| then s[i] else NUL
  }

  /** `isspace` in the C locale. */
  predicate IsSpace(c: char) {
    c == ' ' || c == '\t' || c == '\n' || c == '\r' || c == '\U{0B}' || c == '\U{0C}'
  }

  predicate IsQuote(c: char) {
    c == '"' || c == '\''
  }

  function ToLower(c: char): char {
    if 'A' <= c <= 'Z' then c - 'A' + 'a' else c
  }

  function Lower(s: string): (r: string)
    ensures |r| == |s|
    ensures forall i :: 0 <= i < |s| ==> r[i] == ToLower(s[i])
  {
    seq(|s|, i requires 0 <= i < |s| => ToLower(s[i]))
  }

  /** `strcasecmp(s, t) == 0` */
  predicate CaseEqual(s: string, t: string) {
    Lower(s) == Lower(t)
  }

  /** `strncasecmp(s, word, strlen(word)) == 0` */
  predicate CasePrefix(word: string, s: string) {
    Lower(word) <= Lower(s)
  }

  /** The same letter, or a letter in its other case. */
  predicate SameLetter(a: char, b: char) {
    || a == b
    || ('A' <= a <= 'Z' && b as int == a as int + 32)
    || ('A' <= b <= 'Z' && a as int == b as int + 32)
  }

  lemma CaseEqualMeans(s: string, t: string)
    ensures CaseEqual(s, t) <==> |s| == |t| && forall i :: 0 <= i < |s| ==> SameLetter(s[i], t[i])
  {
    assert |Lower(s)| == |s| && |Lower(t)| == |t|;
    forall i | 0 <= i < |s| && i < |t|
      ensures Lower(s)[i] == Lower(t)[i] <==> SameLetter(s[i], t[i])
    {
    }
    if CaseEqual(s, t) {
      assert forall i :: 0 <= i < |s| ==> Lower(s)[i] == Lower(t)[i];
    }
  }

  lemma CasePrefixMeans(word: string, s: string)
    ensures CasePrefix(word, s) <==> |word| <= |s| && CaseEqual(word, s[..|word|])
  {
    if |word| <= |s| {
      assert Lower(s[..|word|]) == Lower(s)[..|word|];
    }
  }

  /** The string without its leading white space. */
  function TrimLeft(s: string): (r: string)
    ensures |r| <= |s| && r == s[|s| - |r|..]
    ensures r != "" ==> !IsSpace(r[0])
  {
    if s != "" && IsSpace(s[0]) then TrimLeft(s[1..]) else s
  }

  /** Strings joined without anything between them. */
  function Glue(words: seq<string>): string {
    if words == [] then "" else words[0] + Glue(words[1..])
  }

  lemma GlueOne(word: string)
    ensures Glue([word]) == word
  {
    assert [word][1..] == [];
  }

  lemma {:induction false} GlueAppend(xs: seq<string>, ys: seq<string>)
    ensures Glue(xs + ys) == Glue(xs) + Glue(ys)
  {
    if xs == [] {
      assert xs + ys == ys;
    } else {
      assert (xs + ys)[1..] == xs[1..] + ys;
      GlueAppend(xs[1..], ys);
    }
  }
}

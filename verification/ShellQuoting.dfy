/** The copyable command line of scripts/publish-npm-baseline.ts,
    `formatCopyableCommand` and `quoteShellArgument`, read back by the quoting
    rules of the POSIX.1-2017 Shell Command Language, section 2.2. */
module ShellQuoting {
  import opened Options

  /* ---- The printer ---- */

  /** A character of the pattern [\w./:@=+-]. */
  predicate SafeChar(c: char) {
    'a' <= c <= 'z' || 'A' <= c <= 'Z' || '0' <= c <= '9' || c in "_./:@=+-"
  }

  const LOWER := "abcdefghijklmnopqrstuvwxyz"
  const UPPER := "ABCDEFGHIJKLMNOPQRSTUVWXYZ"

  lemma LowerIff(c: char)
    ensures c in LOWER <==> 'a' <= c <= 'z'
  {
  }

  lemma UpperIff(c: char)
    ensures c in UPPER <==> 'A' <= c <= 'Z'
  {
  }

  lemma SafeCharIff(c: char)
    ensures SafeChar(c) <==> c in LOWER || c in UPPER || c in "0123456789_./:@=+-"
  {
    LowerIff(c);
    UpperIff(c);
  }

  predicate Safe(word: string) {
    word != "" && forall c :: c in word ==> SafeChar(c)
  }

  /** A single quote is written by closing the quotes, quoting it doubly, and reopening them. */
  const QUOTED_QUOTE := "'\"'\"'"

  function ReplaceQuotes(s: string): string {
    if s == "" then ""
    else (if s[0] == '\'' then QUOTED_QUOTE else [s[0]]) + ReplaceQuotes(s[1..])
  }

  /** `quoteShellArgument` */
  function Quote(word: string): string {
    if Safe(word) then word else "'" + ReplaceQuotes(word) + "'"
  }

  lemma {:induction false} QuotesAreNoShorter(s: string)
    ensures |ReplaceQuotes(s)| >= |s|
  {
    if s != "" {
      QuotesAreNoShorter(s[1..]);
    }
  }

  /** Exactly the nonempty words of these characters are printed bare. */
  lemma BareIff(word: string)
    ensures Quote(word) == word <==> word != "" && forall c :: c in word ==> SafeChar(c)
  {
    QuotesAreNoShorter(word);
  }

  /** `formatCopyableCommand`, for the command followed by its arguments. */
  function Format(words: seq<string>): string
    requires words != []
  {
    if |words| == 1 then Quote(words[0])
    else Format(words[..|words| - 1]) + " " + Quote(words[|words| - 1])
  }

  /* ---- The shell's reading ---- */

  /** Unquoted, after an unquoted backslash, in single quotes, in double quotes,
      and after a backslash in double quotes. */
  datatype Mode = Plain | Escaped | Single | Double | DoubleEscaped

  /** The words read so far and the word being read, if one has begun. The shell
      is stuck on text that is more than plain words. */
  datatype Lexer = Lexer(words: seq<string>, word: Option<string>, mode: Mode) | Stuck

  function Grow(l: Lexer, s: string, mode: Mode): Lexer
    requires l.Lexer?
  {
    Lexer(l.words, Some((if l.word.Some? then l.word.value else "") + s), mode)
  }

  /** Unquoted, these start operators, expansions, patterns, comments or the next command. */
  predicate Special(c: char) {
    c in "|&;<>()$`*?[#~\n"
  }

  function Step(l: Lexer, c: char): Lexer {
    if l.Stuck? then Stuck
    else match l.mode
      case Plain =>
        if c == ' ' || c == '\t' then
          if l.word.Some? then Lexer(l.words + [l.word.value], None, Plain) else l
        else if c == '\\' then l.(mode := Escaped)
        else if c == '\'' then Grow(l, "", Single)
        else if c == '"' then Grow(l, "", Double)
        else if Special(c) then Stuck
        else Grow(l, [c], Plain)
      case Escaped =>
        // an escaped newline joins the lines
        if c == '\n' then l.(mode := Plain) else Grow(l, [c], Plain)
      case Single =>
        if c == '\'' then l.(mode := Plain) else Grow(l, [c], Single)
      case Double =>
        if c == '"' then l.(mode := Plain)
        else if c == '\\' then l.(mode := DoubleEscaped)
        else if c == '$' || c == '`' then Stuck
        else Grow(l, [c], Double)
      case DoubleEscaped =>
        if c == '\n' then l.(mode := Double)
        else if c in "$`\"\\" then Grow(l, [c], Double)
        else Grow(l, ['\\', c], Double)
  }

  function Read(l: Lexer, s: string): Lexer
    decreases |s|
  {
    if s == "" then l else Read(Step(l, s[0]), s[1..])
  }

  /** The words of a line, if it is nothing but complete words. */
  function Words(line: string): Option<seq<string>> {
    var l := Read(Lexer([], None, Plain), line);
    if l.Stuck? || l.mode != Plain then None
    else Some(l.words + if l.word.Some? then [l.word.value] else [])
  }

  /* ---- The round trip ---- */

  lemma {:induction false} ReadConcat(l: Lexer, a: string, b: string)
    ensures Read(l, a + b) == Read(Read(l, a), b)
    decreases |a|
  {
    if a == "" {
      assert a + b == b;
    } else {
      assert (a + b)[1..] == a[1..] + b;
      ReadConcat(Step(l, a[0]), a[1..], b);
    }
  }

  lemma ReadOne(l: Lexer, c: char)
    ensures Read(l, [c]) == Step(l, c)
  {
    assert [c][1..] == "";
  }

  lemma SafeIsLiteral(c: char)
    requires SafeChar(c)
    ensures !Special(c) && c !in " \t\\'\""
  {
  }

  /** Safe characters extend the word. */
  lemma {:induction false} ReadSafe(words: seq<string>, word: string, s: string)
    requires forall c :: c in s ==> SafeChar(c)
    ensures Read(Lexer(words, Some(word), Plain), s) == Lexer(words, Some(word + s), Plain)
    decreases |s|
  {
    if s == "" {
      assert word + s == word;
    } else {
      SafeIsLiteral(s[0]);
      ReadSafe(words, word + [s[0]], s[1..]);
      assert word + [s[0]] + s[1..] == word + s;
    }
  }

  /** Inside single quotes the escaped text reads back as the text. */
  lemma {:induction false} ReadQuoted(words: seq<string>, word: string, s: string)
    ensures Read(Lexer(words, Some(word), Single), ReplaceQuotes(s)) == Lexer(words, Some(word + s), Single)
    decreases |s|
  {
    var l := Lexer(words, Some(word), Single);
    if s == "" {
      assert word + s == word;
    } else {
      var head := if s[0] == '\'' then QUOTED_QUOTE else [s[0]];
      ReadConcat(l, head, ReplaceQuotes(s[1..]));
      if s[0] == '\'' {
        ReadQuotedQuote(words, word);
      } else {
        ReadOne(l, s[0]);
      }
      ReadQuoted(words, word + [s[0]], s[1..]);
      assert word + [s[0]] + s[1..] == word + s;
    }
  }

  lemma ReadQuotedQuote(words: seq<string>, word: string)
    ensures Read(Lexer(words, Some(word), Single), QUOTED_QUOTE) == Lexer(words, Some(word + "'"), Single)
  {
    var q := QUOTED_QUOTE;
    assert q[1..] == "\"'\"'" && q[1..][1..] == "'\"'" && q[1..][1..][1..] == "\"'" && q[1..][1..][1..][1..] == "'";
    assert word + "" == word && word + "'" + "" == word + "'";
    assert Read(Lexer(words, Some(word + "'"), Plain), "'") == Lexer(words, Some(word + "'"), Single);
    assert Read(Lexer(words, Some(word + "'"), Double), "\"'") == Lexer(words, Some(word + "'"), Single);
    assert Read(Lexer(words, Some(word), Double), "'\"'") == Lexer(words, Some(word + "'"), Single);
    assert Read(Lexer(words, Some(word), Plain), "\"'\"'") == Lexer(words, Some(word + "'"), Single);
  }

  /** A quoted word reads as exactly that word, whatever its characters. */
  lemma ReadWord(words: seq<string>, word: string)
    ensures Read(Lexer(words, None, Plain), Quote(word)) == Lexer(words, Some(word), Plain)
  {
    if Safe(word) {
      ReadSafeWord(words, word);
    } else {
      ReadQuotedWord(words, word);
    }
  }

  lemma ReadSafeWord(words: seq<string>, word: string)
    requires Safe(word)
    ensures Read(Lexer(words, None, Plain), word) == Lexer(words, Some(word), Plain)
  {
    SafeIsLiteral(word[0]);
    assert "" + [word[0]] == [word[0]];
    assert Step(Lexer(words, None, Plain), word[0]) == Lexer(words, Some([word[0]]), Plain);
    ReadSafe(words, [word[0]], word[1..]);
    assert [word[0]] + word[1..] == word;
  }

  lemma ReadQuotedWord(words: seq<string>, word: string)
    ensures Read(Lexer(words, None, Plain), "'" + ReplaceQuotes(word) + "'") == Lexer(words, Some(word), Plain)
  {
    var l, inside := Lexer(words, None, Plain), Lexer(words, Some(""), Single);
    ReadConcat(l, "'" + ReplaceQuotes(word), "'");
    ReadConcat(l, "'", ReplaceQuotes(word));
    ReadOne(l, '\'');
    assert "" + "" == "" && "" + word == word;
    ReadQuoted(words, "", word);
    ReadOne(Lexer(words, Some(word), Single), '\'');
  }

  /** A blank ends the word. */
  lemma ReadBlank(l: Lexer, words: seq<string>, word: string, text: string)
    requires Read(l, text) == Lexer(words, Some(word), Plain)
    ensures Read(l, text + " ") == Lexer(words + [word], None, Plain)
  {
    ReadConcat(l, text, " ");
    ReadOne(Lexer(words, Some(word), Plain), ' ');
  }

  lemma {:induction false} ReadFormatted(words: seq<string>)
    requires words != []
    ensures Read(Lexer([], None, Plain), Format(words))
         == Lexer(words[..|words| - 1], Some(words[|words| - 1]), Plain)
    decreases |words|
  {
    var start := Lexer([], None, Plain);
    var front, last := words[..|words| - 1], words[|words| - 1];
    if front == [] {
      ReadWord([], last);
    } else {
      ReadFormatted(front);
      ReadBlank(start, front[..|front| - 1], front[|front| - 1], Format(front));
      assert front[..|front| - 1] + [front[|front| - 1]] == front;
      ReadConcat(start, Format(front) + " ", Quote(last));
      ReadWord(front, last);
    }
  }

  /** The printed command line splits into exactly the command and its arguments. */
  lemma ShellRoundTrip(words: seq<string>)
    requires words != []
    ensures Words(Format(words)) == Some(words)
  {
    ReadFormatted(words);
    assert words[..|words| - 1] + [words[|words| - 1]] == words;
  }
}

/**
  The lexical rules of src/scanner.l, declaratively: which byte strings each rule matches, what
  the longest match is, and the tokens of a configuration text. The table-driven scanner of
  src/scanner.c is proved against this module.
 */
module Lexicon {
  import opened Bytes

  /** The class `C` of scanner.l. */
  predicate IsWordByte(b: byte) {
    b != NEWLINE && b != TAB && b != SPACE
  }

  predicate AllWord(t: seq<byte>) {
    forall i :: 0 <= i < |t| ==> IsWordByte(t[i])
  }

  const BLANK := 1
  const COMMENT := 2
  const LINE_END := 3
  const WORD := 4
  const ECHO := 5

  /** The rules in file order; `ECHO` is the rule flex adds at the end. */
  predicate Matches(rule: int, t: seq<byte>) {
    match rule
    case 1 => t == [TAB] || t == [SPACE] || t == [BACKSLASH, NEWLINE]
    case 2 => t != [] && t[0] == HASH && NEWLINE !in t
    case 3 => t == [NEWLINE]
    case 4 => t != [] && AllWord(t)
    case 5 => |t| == 1
    case _ => false
  }

  /** No rule matches a longer prefix of `text` than the first `n` bytes. */
  ghost predicate NoneLonger(text: seq<byte>, n: nat) {
    forall r, m :: n < m <= |text| ==> !Matches(r, text[..m])
  }

  /** flex's choice: the longest match, and of the rules that match it the earliest. */
  ghost predicate IsLexeme(text: seq<byte>, rule: int, n: nat) {
    1 <= n <= |text| && Matches(rule, text[..n]) && NoneLonger(text, n)
    && forall r :: Matches(r, text[..n]) ==> rule <= r
  }

  lemma LexemeUnique(text: seq<byte>, rule: int, n: nat, rule': int, n': nat)
    requires IsLexeme(text, rule, n) && IsLexeme(text, rule', n')
    ensures rule == rule' && n == n'
  {
  }

  // ----- the lexeme, computed -------------------------------------------------------------

  /** The length of the longest prefix without a newline (`words`: and without blanks). */
  function Span(text: seq<byte>, words: bool): (n: nat)
    ensures n <= |text|
    ensures forall i :: 0 <= i < n ==> text[i] != NEWLINE && (words ==> IsWordByte(text[i]))
    ensures n < |text| ==> text[n] == NEWLINE || (words && !IsWordByte(text[n]))
  {
    if text == [] || text[0] == NEWLINE || (words && !IsWordByte(text[0])) then 0
    else 1 + Span(text[1..], words)
  }

  datatype Lexeme = Lexeme(rule: int, len: nat)

  function FirstLexeme(text: seq<byte>): (l: Lexeme)
    requires text != []
    ensures 1 <= l.len <= |text|
  {
    if text[0] == TAB || text[0] == SPACE then Lexeme(BLANK, 1)
    else if text[0] == NEWLINE then Lexeme(LINE_END, 1)
    else if text[0] == HASH then Lexeme(COMMENT, Span(text, false))
    else if text[0] == BACKSLASH && |text| > 1 && text[1] == NEWLINE then Lexeme(BLANK, 2)
    else Lexeme(WORD, Span(text, true))
  }

  lemma LongerThan(text: seq<byte>, n: nat, m: nat)
    requires n < m <= |text|
    ensures text[..m][n] == text[n] && text[n] in text[..m] && text[..m][0] == text[0]
  {
  }

  /** The computed lexeme is flex's choice, and it is never the default rule. */
  lemma FirstLexemeIsLexeme(text: seq<byte>)
    requires text != []
    ensures IsLexeme(text, FirstLexeme(text).rule, FirstLexeme(text).len)
    ensures FirstLexeme(text).rule != ECHO
  {
    var Lexeme(rule, n) := FirstLexeme(text);
    assert text[..n][0] == text[0];
    forall r, m | n < m <= |text| ensures !Matches(r, text[..m]) {
      LongerThan(text, n, m);
      if m == 2 && n == 1 {
        assert text[..m] == [text[0], text[1]];
      }
    }
  }

  // ----- tokens ---------------------------------------------------------------------------

  /** TKSTRING with its value, and TKNEWLINE. */
  datatype Token = Word(value: seq<byte>) | LineEnd

  function Tokens(text: seq<byte>): seq<Token>
    decreases |text|
  {
    if text == [] then []
    else
      var Lexeme(rule, n) := FirstLexeme(text);
      TokenOf(rule, text[..n]) + Tokens(text[n..])
  }

  /** What the action of a rule returns; blanks and comments return nothing. */
  function TokenOf(rule: int, t: seq<byte>): seq<Token> {
    if rule == LINE_END then [LineEnd] else if rule == WORD then [Word(CStr(t))] else []
  }

  lemma NoTokens()
    ensures Tokens([]) == []
  {
  }

  /** Taking flex's choice off the text takes its token, if any, off the tokens. */
  lemma TakeLexeme(text: seq<byte>, rule: int, n: nat)
    requires IsLexeme(text, rule, n)
    ensures 1 <= rule <= 4
    ensures Tokens(text) == TokenOf(rule, text[..n]) + Tokens(text[n..])
  {
    FirstLexemeIsLexeme(text);
    LexemeUnique(text, rule, n, FirstLexeme(text).rule, FirstLexeme(text).len);
  }

  // ----- what the tokens of a text are ---------------------------------------------------------

  lemma {:induction false} SpanIs(text: seq<byte>, words: bool, n: nat)
    requires n <= |text|
    requires forall i :: 0 <= i < n ==> text[i] != NEWLINE && (words ==> IsWordByte(text[i]))
    requires n < |text| ==> text[n] == NEWLINE || (words && !IsWordByte(text[n]))
    ensures Span(text, words) == n
  {
    if n > 0 {
      SpanIs(text[1..], words, n - 1);
    }
  }

  /** Blanks and line continuations are no tokens; a newline is one. */
  lemma TokensOfBlanks(rest: seq<byte>)
    ensures Tokens([SPACE] + rest) == Tokens(rest) == Tokens([TAB] + rest)
    ensures Tokens([BACKSLASH, NEWLINE] + rest) == Tokens(rest)
    ensures Tokens([NEWLINE] + rest) == [LineEnd] + Tokens(rest)
  {
    assert ([SPACE] + rest)[1..] == rest && ([TAB] + rest)[1..] == rest && ([NEWLINE] + rest)[1..] == rest;
    assert ([BACKSLASH, NEWLINE] + rest)[2..] == rest;
  }

  /** A comment is no token, up to the end of its line. */
  lemma TokensOfComment(comment: seq<byte>, rest: seq<byte>)
    requires comment != [] && comment[0] == HASH && NEWLINE !in comment
    requires rest == [] || rest[0] == NEWLINE
    ensures Tokens(comment + rest) == Tokens(rest)
  {
    var text := comment + rest;
    SpanIs(text, false, |comment|);
    assert text[|comment|..] == rest;
  }

  /** A word that begins neither a comment nor a continuation is one token, up to the next blank or newline. */
  lemma TokensOfWord(word: seq<byte>, rest: seq<byte>)
    requires word != [] && AllWord(word) && word[0] != HASH
    requires rest == [] || !IsWordByte(rest[0])
    requires !(word == [BACKSLASH] && rest != [] && rest[0] == NEWLINE)
    ensures Tokens(word + rest) == [Word(CStr(word))] + Tokens(rest)
  {
    var text := word + rest;
    SpanIs(text, true, |word|);
    assert text[|word|..] == rest && text[..|word|] == word;
    assert |text| > 1 && |word| > 1 ==> text[1] == word[1];
  }

  function Lexemes(text: seq<byte>): seq<seq<byte>>
    decreases |text|
  {
    if text == [] then []
    else [text[..FirstLexeme(text).len]] + Lexemes(text[FirstLexeme(text).len..])
  }

  /** Nothing is lost: the lexemes, end to end, are the text. */
  lemma {:induction false} LexemesCover(text: seq<byte>)
    ensures Flatten(Lexemes(text)) == text
    decreases |text|
  {
    if text != [] {
      var n := FirstLexeme(text).len;
      LexemesCover(text[n..]);
      assert text == text[..n] + text[n..];
    }
  }

  /** No word holds a NUL. */
  predicate CleanTokens(tokens: seq<Token>) {
    forall i :: 0 <= i < |tokens| && tokens[i].Word? ==> NUL !in tokens[i].value
  }

  lemma {:induction false} WordsClean(text: seq<byte>)
    ensures CleanTokens(Tokens(text))
    decreases |text|
  {
    if text != [] {
      WordsClean(text[FirstLexeme(text).len..]);
    }
  }

  /** Words hold at least one byte: the parser looks at the last one. */
  predicate Sound(tokens: seq<Token>) {
    forall i :: 0 <= i < |tokens| && tokens[i].Word? ==> tokens[i].value != []
  }

  lemma {:induction false} WordsNonempty(text: seq<byte>)
    requires NUL !in text
    ensures Sound(Tokens(text))
    decreases |text|
  {
    if text != [] {
      var Lexeme(rule, n) := FirstLexeme(text);
      WordsNonempty(text[n..]);
      CStrWhole(text[..n]);
    }
  }
}

/** The character tokenizer of src/lexer.rs.

    The lexer holds the iterator over the input (`chars`: what `next()` will
    still yield), the current character and `peek_char`. `peek_char` is set
    once, by the constructor, to the input's second character and never again:
    `read_char` does not refresh it, so `!=`, `<=` and `>=` look at the
    input's second character, not at the one after the current character.

    Character classes are ASCII-only (letters, digits, `_`, and the six ASCII
    white-space characters). */
module Lexer {
  import opened Wrappers
  import opened Tokens

  predicate IsAlphabetic(c: char) {
    ('a' <= c <= 'z') || ('A' <= c <= 'Z')
  }

  predicate IsDigit(c: char) {
    '0' <= c <= '9'
  }

  /** `is_alphanumeric() || c == '_'`, the identifier characters. */
  predicate IsIdentChar(c: char) {
    IsAlphabetic(c) || IsDigit(c) || c == '_'
  }

  /** Tab, line feed, vertical tab, form feed, carriage return and space. */
  predicate IsWhitespace(c: char) {
    c == ' ' || ('\t' <= c <= '\r')
  }

  predicate NotQuote(c: char) {
    c != '\''
  }

  /** Largest value `str::parse::<i64>` accepts. */
  const I64_MAX: int := 0x7FFF_FFFF_FFFF_FFFF

  /** Length of the longest prefix of s whose characters all satisfy p. */
  function Span(s: string, p: char -> bool): (n: nat)
    ensures n <= |s|
    ensures forall i | 0 <= i < n :: p(s[i])
    ensures n < |s| ==> !p(s[n])
  {
    if s == [] || !p(s[0]) then 0 else 1 + Span(s[1..], p)
  }

  /** The three conditions of Span's contract determine it. */
  lemma {:induction false} SpanUnique(s: string, p: char -> bool, n: nat)
    requires n <= |s|
    requires forall i | 0 <= i < n :: p(s[i])
    requires n < |s| ==> !p(s[n])
    ensures Span(s, p) == n
  {
    if n > 0 {
      SpanUnique(s[1..], p, n - 1);
    }
  }

  function DigitValue(c: char): nat
    requires IsDigit(c)
  {
    c as int - '0' as int
  }

  /** Decimal value of a digit string, as `str::parse` reads it. */
  function DigitsValue(ds: string): nat
    requires forall i | 0 <= i < |ds| :: IsDigit(ds[i])
  {
    if ds == [] then 0 else DigitsValue(ds[..|ds| - 1]) * 10 + DigitValue(ds[|ds| - 1])
  }

  /** What one call of `next_token` yields and the input it leaves. */
  datatype Step = Step(token: Option<Token>, rest: string)

  /** The token read_identifier builds from a finished word. */
  function ClassifyWord(word: string): Token {
    if IsKeyword(word) then Keyword(Upper(word))
    else if IsBoolean(word) then Boolean(EqIgnoreAsciiCase(word, "TRUE"))
    else Identifier(word)
  }

  /** rest is a suffix of s, strictly shorter when a token was produced. */
  ghost predicate Consumes(s: string, st: Step) {
    |st.rest| <= |s| && st.rest == s[|s| - |st.rest|..] && (st.token.Some? ==> |st.rest| < |s|)
  }

  function IdentifierStep(s: string): (st: Step)
    requires s != [] && IsIdentChar(s[0])
    ensures Consumes(s, st)
    ensures |st.rest| < |s|
  {
    var n := Span(s, IsIdentChar);
    Step(Some(ClassifyWord(s[..n])), s[n..])
  }

  function NumberStep(s: string): (st: Step)
    requires s != [] && IsDigit(s[0])
    ensures Consumes(s, st)
    ensures |st.rest| < |s|
  {
    var n := Span(s, IsDigit);
    if n < |s| && s[n] == '.' then
      var m := Span(s[n + 1..], IsDigit);
      Step(Some(Float(s[..n + 1 + m])), s[n + 1 + m..])
    else
      var v := DigitsValue(s[..n]);
      Step(if v <= I64_MAX then Some(Integer(v)) else None, s[n..])
  }

  function StringStep(s: string): (st: Step)
    requires s != []
    ensures Consumes(s, st)
    ensures |st.rest| < |s|
  {
    var body := s[1..];
    var n := Span(body, NotQuote);
    Step(Some(StringLiteral(body[..n])), if n < |body| then body[n + 1..] else [])
  }

  /** One call of `next_token` on remaining input `input`, with the lexer's
      fixed `peek_char`. The result's rest is always a suffix of the input,
      and a token is only produced by consuming at least one character. */
  function Lex(input: string, peek: Option<char>): (st: Step)
    ensures |st.rest| <= |input| && st.rest == input[|input| - |st.rest|..]
    ensures st.token.Some? ==> |st.rest| < |input|
  {
    var n := Span(input, IsWhitespace);
    var st := Dispatch(input[n..], peek);
    ConsumesAfterDrop(input, n, st);
    st
  }

  /** `next_token` skips the leading white space, then dispatches on the
      first character left. */
  lemma LexSkipsBlanks(input: string, peek: Option<char>)
    ensures Lex(input, peek) == Dispatch(input[Span(input, IsWhitespace)..], peek)
  {
  }

  /** A suffix of what is left after dropping n characters is a suffix of s. */
  lemma SuffixOfDrop(s: string, n: nat, k: nat)
    requires n <= |s| && k <= |s| - n
    ensures s[n..][|s| - n - k..] == s[|s| - k..]
  {
  }

  /** A step that consumes from s[n..] consumes from s, and strictly when it
      produced a token. */
  lemma ConsumesAfterDrop(s: string, n: nat, st: Step)
    requires n <= |s| && Consumes(s[n..], st)
    ensures |st.rest| <= |s| && st.rest == s[|s| - |st.rest|..]
    ensures st.token.Some? ==> |st.rest| < |s|
  {
    SuffixOfDrop(s, n, |st.rest|);
  }

  /** The punctuation arms of `next_token`: the token produced and how many
      characters are consumed. `peek` is the lexer's fixed `peek_char`. */
  function Symbol(c: char, peek: Option<char>): (r: (Option<Token>, nat))
    ensures r.1 <= 2
    ensures r.0.Some? ==> r.1 >= 1
  {
    if c == '=' then (Some(Equal), 1)
    else if c == '!' then (if peek == Some('=') then (Some(NotEqual), 2) else (None, 0))
    else if c == '<' then (if peek == Some('=') then (Some(LessThanOrEqual), 2) else (Some(LessThan), 1))
    else if c == '>' then (if peek == Some('=') then (Some(GreaterThanOrEqual), 2) else (Some(GreaterThan), 1))
    else if c == ',' then (Some(Comma), 1)
    else if c == '(' then (Some(LeftParen), 1)
    else if c == ')' then (Some(RightParen), 1)
    else if c == '.' then (Some(Dot), 1)
    else (None, 1)
  }

  /** `read_char` called n times. */
  function Advance(s: string, n: nat): (r: string)
    ensures |r| <= |s| && r == s[|s| - |r|..]
    ensures n <= |s| ==> |r| == |s| - n
    ensures n >= |s| ==> r == []
  {
    if n <= |s| then s[n..] else []
  }

  /** The `match` of `next_token` on input that starts at a non-blank character. */
  function Dispatch(s: string, peek: Option<char>): (st: Step)
    ensures Consumes(s, st)
  {
    if s == [] then Step(None, [])
    else if IsAlphabetic(s[0]) then IdentifierStep(s)
    else if IsDigit(s[0]) then NumberStep(s)
    else if s[0] == '\'' then StringStep(s)
    else
      var (token, n) := Symbol(s[0], peek);
      Step(token, Advance(s, n))
  }

  /** NumberStep of an integer literal: the digit run is not followed by `.`. */
  lemma IntegerStep(s: string)
    requires s != [] && IsDigit(s[0])
    requires var n := Span(s, IsDigit); !(n < |s| && s[n] == '.')
    ensures var n := Span(s, IsDigit);
      NumberStep(s) ==
        Step(if DigitsValue(s[..n]) <= I64_MAX then Some(Integer(DigitsValue(s[..n]))) else None, s[n..])
  {
  }

  /** NumberStep of a float literal: digits, `.`, digits. */
  lemma FloatStep(s: string)
    requires s != [] && IsDigit(s[0])
    requires var n := Span(s, IsDigit); n < |s| && s[n] == '.'
    ensures var n := Span(s, IsDigit); var t := s[n + 1..]; var m := Span(t, IsDigit);
      NumberStep(s) == Step(Some(Float(s[..n] + ['.'] + t[..m])), t[m..])
  {
    var n := Span(s, IsDigit);
    var t := s[n + 1..];
    var m := Span(t, IsDigit);
    PrefixThen(s, n + 1, m);
    assert s[..n + 1] == s[..n] + ['.'];
    assert s[n + 1 + m..] == t[m..];
    assert NumberStep(s) == Step(Some(Float(s[..n + 1 + m])), s[n + 1 + m..]);
  }

  /** A prefix of s is its first i characters followed by the next m. */
  lemma PrefixThen(s: string, i: nat, m: nat)
    requires i + m <= |s|
    ensures s[..i + m] == s[..i] + s[i..][..m]
  {
  }

  /** StringStep when a closing quote is found: the text before it, and the
      input after it. */
  lemma StringStepClosed(s: string, text: string, r: string)
    requires s != [] && s[1..] == text + r && r != [] && r[0] == '\''
    requires forall i | 0 <= i < |text| :: NotQuote(text[i])
    ensures StringStep(s) == Step(Some(StringLiteral(text)), r[1..])
  {
    var body := s[1..];
    SpanUnique(body, NotQuote, |text|);
    assert body[..|text|] == text;
    assert body[|text| + 1..] == r[1..];
  }

  /** StringStep when the input ends before a closing quote. */
  lemma StringStepOpen(s: string, text: string)
    requires s != [] && s[1..] == text
    requires forall i | 0 <= i < |text| :: NotQuote(text[i])
    ensures StringStep(s) == Step(Some(StringLiteral(text)), [])
  {
    SpanUnique(text, NotQuote, |text|);
    assert text[..|text|] == text;
  }

  /** Decimal digits of n, most significant first, with no leading zero. */
  function DecimalString(n: nat): (ds: string)
    ensures ds != [] && forall i | 0 <= i < |ds| :: IsDigit(ds[i])
  {
    var d := ['0' + (n % 10) as char];
    if n < 10 then d else DecimalString(n / 10) + d
  }

  /** Parsing the decimal digits of n gives n back. */
  lemma {:induction false} DigitsValueOfDecimal(n: nat)
    ensures DigitsValue(DecimalString(n)) == n
  {
    var ds := DecimalString(n);
    if n >= 10 {
      DigitsValueOfDecimal(n / 10);
      assert ds[..|ds| - 1] == DecimalString(n / 10);
    }
  }

  /** An integer literal followed by anything but a digit or `.` lexes to that
      integer when it fits in an i64, and to no token otherwise; either way the
      literal is consumed. */
  lemma IntegerLiteral(n: nat, rest: string, peek: Option<char>)
    requires rest == [] || !(IsDigit(rest[0]) || rest[0] == '.')
    ensures Lex(DecimalString(n) + rest, peek) ==
      Step(if n <= I64_MAX then Some(Integer(n)) else None, rest)
  {
    var ds := DecimalString(n);
    var s := ds + rest;
    SpanUnique(s, IsWhitespace, 0);
    SpanUnique(s, IsDigit, |ds|);
    assert s[..|ds|] == ds;
    assert s[|ds|..] == rest;
    DigitsValueOfDecimal(n);
  }

  /** A quoted text without quotes lexes to that text, and the closing quote
      is consumed. */
  lemma StringLiteralRoundTrip(text: string, rest: string, peek: Option<char>)
    requires forall i | 0 <= i < |text| :: NotQuote(text[i])
    ensures Lex(['\''] + text + ['\''] + rest, peek) == Step(Some(StringLiteral(text)), rest)
  {
    var s := ['\''] + text + ['\''] + rest;
    SpanUnique(s, IsWhitespace, 0);
    assert s[1..] == text + (['\''] + rest);
    StringStepClosed(s, text, ['\''] + rest);
    assert (['\''] + rest)[1..] == rest;
  }

  /** An unterminated string literal takes the rest of the input as its text. */
  lemma UnterminatedString(text: string, peek: Option<char>)
    requires forall i | 0 <= i < |text| :: NotQuote(text[i])
    ensures Lex(['\''] + text, peek) == Step(Some(StringLiteral(text)), [])
  {
    var s := ['\''] + text;
    SpanUnique(s, IsWhitespace, 0);
    assert s[1..] == text;
    StringStepOpen(s, text);
  }

  /** A keyword is recognised in any letter case and reported upper-cased. */
  lemma KeywordLiteral(w: string, rest: string, peek: Option<char>)
    requires w != [] && forall i | 0 <= i < |w| :: IsAlphabetic(w[i])
    requires IsKeyword(w)
    requires rest == [] || !IsIdentChar(rest[0])
    ensures Lex(w + rest, peek) == Step(Some(Keyword(Upper(w))), rest)
    ensures Lex(Lower(w) + rest, peek) == Step(Some(Keyword(Upper(w))), rest)
  {
    var lw := Lower(w);
    assert forall i | 0 <= i < |lw| :: IsAlphabetic(lw[i]) by {
      forall i | 0 <= i < |lw| ensures IsAlphabetic(lw[i]) {
        LowerKeepsAlphabetic(w[i]);
      }
    }
    KeywordCaseInsensitive(w);
    UpperOfLower(w);
    WordLiteral(w, rest, peek);
    WordLiteral(lw, rest, peek);
    assert ClassifyWord(lw) == Keyword(Upper(lw));
  }

  lemma LowerKeepsAlphabetic(c: char)
    requires IsAlphabetic(c)
    ensures IsAlphabetic(AsciiLower(c))
  {
  }

  lemma WordLiteral(w: string, rest: string, peek: Option<char>)
    requires w != [] && forall i | 0 <= i < |w| :: IsAlphabetic(w[i])
    requires rest == [] || !IsIdentChar(rest[0])
    ensures Lex(w + rest, peek) == Step(Some(ClassifyWord(w)), rest)
  {
    var s := w + rest;
    SpanUnique(s, IsWhitespace, 0);
    SpanUnique(s, IsIdentChar, |w|);
    assert s[..|w|] == w;
    assert s[|w|..] == rest;
  }

  /** `!` not followed (as far as `peek_char` tells) by `=` yields no token and
      consumes nothing, so every further call yields the same: the lexer is stuck. */
  lemma BangStalls(ws: string, s: string, peek: Option<char>)
    requires forall i | 0 <= i < |ws| :: IsWhitespace(ws[i])
    requires s != [] && s[0] == '!' && peek != Some('=')
    ensures Lex(ws + s, peek) == Step(None, s)
    ensures Lex(s, peek) == Step(None, s)
  {
    var input := ws + s;
    SpanUnique(input, IsWhitespace, |ws|);
    assert input[|ws|..] == s;
    SpanUnique(s, IsWhitespace, 0);
    assert s[0..] == s;
  }

  /** Lexing a punctuation character after white space. */
  lemma SymbolLiteral(ws: string, s: string, peek: Option<char>)
    requires forall i | 0 <= i < |ws| :: IsWhitespace(ws[i])
    requires s != [] && !IsWhitespace(s[0]) && !IsAlphabetic(s[0]) && !IsDigit(s[0]) && s[0] != '\''
    ensures Lex(ws + s, peek) == Step(Symbol(s[0], peek).0, Advance(s, Symbol(s[0], peek).1))
  {
    var input := ws + s;
    SpanUnique(input, IsWhitespace, |ws|);
    assert input[|ws|..] == s;
  }

  /** `peek_char` is fixed at construction, so whether `<`, `>` or `!` starts a
      two-character operator does not depend on the character after it. */
  lemma ComparisonIgnoresNextChar(ws: string, c: char, r1: string, r2: string, peek: Option<char>)
    requires forall i | 0 <= i < |ws| :: IsWhitespace(ws[i])
    requires c == '<' || c == '>' || c == '!'
    ensures Lex(ws + ([c] + r1), peek).token == Lex(ws + ([c] + r2), peek).token
  {
    SymbolLiteral(ws, [c] + r1, peek);
    SymbolLiteral(ws, [c] + r2, peek);
  }

  /** In `a <= b` the input's second character is a blank, so after the
      identifier `a` the lexer, whose `peek_char` is that blank, reads `<` and
      `=` as two tokens. */
  lemma LessEqualSplitAfterFirstToken(rest: string)
    ensures Lex("a" + (" " + ("<" + ("=" + rest))), Some(' ')) ==
      Step(Some(Identifier("a")), " " + ("<" + ("=" + rest)))
    ensures Lex(" " + ("<" + ("=" + rest)), Some(' ')) == Step(Some(LessThan), "=" + rest)
    ensures Lex("=" + rest, Some(' ')) == Step(Some(Equal), rest)
  {
    FirstWordA(" " + ("<" + ("=" + rest)));
    LoneLess(" ", "=" + rest, Some(' '));
    EqualSign(rest, Some(' '));
  }

  /** Unless `peek_char` is `=`, `<` is a token on its own and leaves what
      follows it, even a `=`. */
  lemma LoneLess(ws: string, rest: string, peek: Option<char>)
    requires forall i | 0 <= i < |ws| :: IsWhitespace(ws[i])
    requires peek != Some('=')
    ensures Lex(ws + ("<" + rest), peek) == Step(Some(LessThan), rest)
  {
    var s := "<" + rest;
    SymbolLiteral(ws, s, peek);
    assert s[1..] == rest;
  }

  /** `=` is always a token on its own. */
  lemma EqualSign(rest: string, peek: Option<char>)
    ensures Lex("=" + rest, peek) == Step(Some(Equal), rest)
  {
    var s := "=" + rest;
    SymbolLiteral([], s, peek);
    assert [] + s == s;
    assert s[1..] == rest;
  }

  lemma FirstWordA(rest: string)
    requires rest != [] && rest[0] == ' '
    ensures Lex("a" + rest, Some(' ')) == Step(Some(Identifier("a")), rest)
  {
    WordLiteral("a", rest, Some(' '));
    KeywordLength("a");
  }

  /** At the very start of the input, where `peek_char` is the second
      character, `<=` is one token. */
  lemma LessEqualAtStart(rest: string)
    ensures Lex("<=" + rest, Some('=')) == Step(Some(LessThanOrEqual), rest)
  {
    var s := "<=" + rest;
    SymbolLiteral([], s, Some('='));
    assert [] + s == s;
    assert s[2..] == rest;
  }

  /** When c followed by cs is what remains of s after n characters, c is
      s[n], cs is what remains after n + 1, and the first n + 1 characters
      are the first n followed by c. */
  lemma SplitAt(c: char, cs: string, s: string, n: nat)
    requires n <= |s| && [c] + cs == s[n..]
    ensures n < |s| && c == s[n] && cs == s[n + 1..] && s[..n] + [c] == s[..n + 1]
  {
    assert s[n..][0] == c;
    assert s[n..][1..] == cs;
  }

  class Lexer {
    /** What the `Chars` iterator will still yield. */
    var chars: string
    var current: Option<char>
    var peek: Option<char>

    /** The iterator is fused: once the current character is gone, so is the rest. */
    ghost predicate Valid()
      reads this
    {
      current.None? ==> chars == []
    }

    /** The input not yet consumed, starting with the current character. */
    function Remaining(): string
      reads this
    {
      (if current.Some? then [current.value] else []) + chars
    }

    constructor (input: string)
      ensures Valid() && Remaining() == input
      ensures peek == (if |input| >= 2 then Some(input[1]) else None)
    {
      chars := input;
      current := None;
      peek := None;
      new;
      ReadChar();
      ReadCharPeek();
    }

    method ReadChar()
      modifies this`current, this`chars
      ensures Valid() && Remaining() == old(chars)
      ensures old(current).Some? ==> Remaining() == old(Remaining())[1..]
      ensures current == (if old(chars) == [] then None else Some(old(chars)[0]))
      ensures chars == (if old(chars) == [] then [] else old(chars)[1..])
    {
      if chars == [] {
        current := None;
      } else {
        current := Some(chars[0]);
        chars := chars[1..];
      }
    }

    method ReadCharPeek()
      modifies this`peek
      ensures peek == (if chars == [] then None else Some(chars[0]))
    {
      peek := if chars == [] then None else Some(chars[0]);
    }

    /** The loop shape of `skip_whitespace`, `read_identifier`,
        `read_number` and `read_string_literal`: consumes the maximal run of
        characters satisfying p and returns it. */
    method ReadWhile(p: char -> bool) returns (run: string)
      requires Valid()
      modifies this`current, this`chars
      ensures Valid()
      ensures run == old(Remaining())[..Span(old(Remaining()), p)]
      ensures Remaining() == old(Remaining())[Span(old(Remaining()), p)..]
    {
      ghost var s := Remaining();
      ghost var n := 0;
      run := [];
      while current.Some? && p(current.value)
        invariant Valid()
        invariant n <= |s| && Remaining() == s[n..] && run == s[..n]
        invariant forall i | 0 <= i < n :: p(s[i])
        decreases |s| - n
      {
        SplitAt(current.value, chars, s, n);
        run := run + [current.value];
        ReadChar();
        n := n + 1;
      }
      SpanUnique(s, p, n);
    }

    /** Consumes the leading white space and nothing else. */
    method SkipWhitespace()
      requires Valid()
      modifies this`current, this`chars
      ensures Valid()
      ensures Remaining() == old(Remaining())[Span(old(Remaining()), IsWhitespace)..]
      ensures current.None? || !IsWhitespace(current.value)
    {
      var _ := ReadWhile(IsWhitespace);
    }

    /** Consumes the maximal run of identifier characters and classifies it. */
    method ReadIdentifier() returns (token: Option<Token>)
      requires Valid() && current.Some? && IsIdentChar(current.value)
      modifies this`current, this`chars
      ensures Valid()
      ensures Step(token, Remaining()) == IdentifierStep(old(Remaining()))
    {
      var identifier := ReadWhile(IsIdentChar);
      if IsKeyword(identifier) {
        token := Some(Keyword(Upper(identifier)));
      } else if IsBoolean(identifier) {
        token := Some(Boolean(EqIgnoreAsciiCase(identifier, "TRUE")));
      } else {
        token := Some(Identifier(identifier));
      }
    }

    /** Consumes a run of digits; a following `.` and digits make a float. */
    method ReadNumber() returns (token: Option<Token>)
      requires Valid() && current.Some? && IsDigit(current.value)
      modifies this`current, this`chars
      ensures Valid()
      ensures Step(token, Remaining()) == NumberStep(old(Remaining()))
    {
      ghost var s := Remaining();
      var number := ReadWhile(IsDigit);
      if current == Some('.') {
        FloatStep(s);
        ghost var n := |number|;
        number := number + ['.'];
        ReadChar();
        assert Remaining() == s[n + 1..];
        var fraction := ReadWhile(IsDigit);
        number := number + fraction;
        token := Some(Float(number));
      } else {
        IntegerStep(s);
        var v := DigitsValue(number);
        token := if v <= I64_MAX then Some(Integer(v)) else None;
      }
    }

    /** Consumes the opening quote, the text up to the next quote, and that quote. */
    method ReadStringLiteral() returns (token: Option<Token>)
      requires Valid() && current.Some?
      modifies this`current, this`chars
      ensures Valid()
      ensures Step(token, Remaining()) == StringStep(old(Remaining()))
    {
      ReadChar();
      ghost var body := Remaining();
      assert body == old(Remaining())[1..];
      var text := ReadWhile(NotQuote);
      ghost var n := Span(body, NotQuote);
      if current.Some? {
        ghost var after := Remaining();
        ReadChar();
        assert Remaining() == after[1..] == body[n + 1..];
      }
      token := Some(StringLiteral(text));
    }

    method NextToken() returns (token: Option<Token>)
      requires Valid()
      modifies this`current, this`chars
      ensures Valid() && peek == old(peek)
      ensures Step(token, Remaining()) == Lex(old(Remaining()), peek)
    {
      SkipWhitespace();
      LexSkipsBlanks(old(Remaining()), peek);
      match current
      case None =>
        token := None;
      case Some(c) =>
        if IsAlphabetic(c) {
          token := ReadIdentifier();
        } else if IsDigit(c) {
          token := ReadNumber();
        } else if c == '\'' {
          token := ReadStringLiteral();
        } else if c == '=' {
          ReadChar();
          token := Some(Equal);
        } else if c == '!' {
          if peek == Some('=') {
            ReadChar();
            ReadChar();
            token := Some(NotEqual);
          } else {
            token := None;
          }
        } else if c == '<' {
          if peek == Some('=') {
            ReadChar();
            ReadChar();
            token := Some(LessThanOrEqual);
          } else {
            ReadChar();
            token := Some(LessThan);
          }
        } else if c == '>' {
          if peek == Some('=') {
            ReadChar();
            ReadChar();
            token := Some(GreaterThanOrEqual);
          } else {
            ReadChar();
            token := Some(GreaterThan);
          }
        } else if c == ',' {
          ReadChar();
          token := Some(Comma);
        } else if c == '(' {
          ReadChar();
          token := Some(LeftParen);
        } else if c == ')' {
          ReadChar();
          token := Some(RightParen);
        } else if c == '.' {
          ReadChar();
          token := Some(Dot);
        } else {
          ReadChar();
          token := None;
        }
    }
  }
}

/** The SQL token type and the two keyword classifiers of src/tokens.rs.
    Case conversion is ASCII-only: `to_uppercase` and `eq_ignore_ascii_case`
    agree with it on every ASCII string. */
module Tokens {

  /** Rust's `Token` enum. A float literal keeps its digit text; the `f64`
      value that Rust parses from that text is not modelled. */
  datatype Token =
    | Identifier(name: string)
    | Integer(n: int)
    | Float(text: string)
    | StringLiteral(text: string)
    | Boolean(b: bool)
    | Null
    | Equal
    | NotEqual
    | LessThan
    | LessThanOrEqual
    | GreaterThan
    | GreaterThanOrEqual
    | Comma
    | LeftParen
    | RightParen
    | Dot
    | Keyword(word: string)

  function AsciiUpper(c: char): char {
    if 'a' <= c <= 'z' then (c as int - 32) as char else c
  }

  function AsciiLower(c: char): char {
    if 'A' <= c <= 'Z' then (c as int + 32) as char else c
  }

  /** `str::to_uppercase`, restricted to ASCII letters. */
  function Upper(s: string): (r: string)
    ensures |r| == |s|
    ensures forall i | 0 <= i < |s| :: r[i] == AsciiUpper(s[i])
  {
    if s == [] then [] else [AsciiUpper(s[0])] + Upper(s[1..])
  }

  /** `str::to_lowercase`, restricted to ASCII letters. */
  function Lower(s: string): (r: string)
    ensures |r| == |s|
    ensures forall i | 0 <= i < |s| :: r[i] == AsciiLower(s[i])
  {
    if s == [] then [] else [AsciiLower(s[0])] + Lower(s[1..])
  }

  /** `str::eq_ignore_ascii_case`. */
  predicate EqIgnoreAsciiCase(a: string, b: string) {
    |a| == |b| && forall i | 0 <= i < |a| :: AsciiLower(a[i]) == AsciiLower(b[i])
  }

  /** The seventeen words `is_keyword` accepts once upper-cased. */
  const Keywords: set<string> := {
    "SELECT", "INSERT", "INTO", "VALUES", "FROM", "JOIN", "ON", "WHERE", "GROUP",
    "BY", "HAVING", "ORDER", "ASC", "DESC", "AND", "OR", "NOT"
  }

  predicate IsKeyword(literal: string) {
    Upper(literal) in Keywords
  }

  predicate IsBoolean(literal: string) {
    EqIgnoreAsciiCase(literal, "TRUE") || EqIgnoreAsciiCase(literal, "FALSE")
  }

  lemma UpperIdempotent(s: string)
    ensures Upper(Upper(s)) == Upper(s)
  {
    assert forall i | 0 <= i < |s| :: Upper(Upper(s))[i] == Upper(s)[i];
  }

  lemma UpperOfLower(s: string)
    ensures Upper(Lower(s)) == Upper(s)
  {
    assert forall i | 0 <= i < |s| :: Upper(Lower(s))[i] == Upper(s)[i];
  }

  /** `is_keyword` does not depend on letter case. */
  lemma KeywordCaseInsensitive(s: string)
    ensures IsKeyword(Upper(s)) == IsKeyword(s)
    ensures IsKeyword(Lower(s)) == IsKeyword(s)
  {
    UpperIdempotent(s);
    UpperOfLower(s);
  }

  /** Every keyword has two to six characters; in particular "" is none. */
  lemma KeywordLength(s: string)
    ensures IsKeyword(s) ==> 2 <= |s| <= 6
  {
    assert |Upper(s)| == |s|;
  }

  lemma LowerEqIffUpperEq(a: char, b: char)
    ensures (AsciiLower(a) == AsciiLower(b)) == (AsciiUpper(a) == AsciiUpper(b))
  {
  }

  /** Ignoring ASCII case is comparing upper-cased forms. */
  lemma EqIgnoreCaseIsUpperEq(a: string, b: string)
    ensures EqIgnoreAsciiCase(a, b) <==> Upper(a) == Upper(b)
  {
    if |a| == |b| {
      forall i | 0 <= i < |a| {
        LowerEqIffUpperEq(a[i], b[i]);
      }
      if Upper(a) == Upper(b) {
        forall i | 0 <= i < |a| ensures AsciiLower(a[i]) == AsciiLower(b[i]) {
          assert Upper(a)[i] == Upper(b)[i];
        }
      }
    } else {
      assert |Upper(a)| != |Upper(b)|;
    }
  }

  /** `is_boolean(s)` holds exactly when s is TRUE or FALSE in some letter case. */
  lemma BooleanIff(s: string)
    ensures IsBoolean(s) <==> Upper(s) == "TRUE" || Upper(s) == "FALSE"
  {
    EqIgnoreCaseIsUpperEq(s, "TRUE");
    EqIgnoreCaseIsUpperEq(s, "FALSE");
    assert Upper("TRUE") == "TRUE";
    assert Upper("FALSE") == "FALSE";
  }

  /** No string is both a keyword and a boolean literal. */
  lemma KeywordNotBoolean(s: string)
    ensures !(IsKeyword(s) && IsBoolean(s))
  {
    BooleanIff(s);
  }
}

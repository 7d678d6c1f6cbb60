/**
 * The search pattern `PageConstraint::getEscapedPattern` builds for a piece
 * of text, and what `preg_match("/{pattern}/i", subject)` decides with it.
 *
 * Both the text and its entity-escaped form go through `preg_quote($x, '/')`,
 * which puts a backslash before every regular-expression metacharacter and
 * before the `/` delimiter, and writes NUL as `\000`. A quoted string reads
 * back, under PCRE's escape rules, as the literal it came from, so the
 * pattern denotes the alternation of (at most) two literals.
 */
module Patterns {
  import opened Outcome
  import opened Strings
  import opened Entities

  /** The characters `preg_quote` prefixes with a backslash, the `/` delimiter included. */
  predicate IsMeta(c: char)
  {
    c == '.' || c == '\\' || c == '+' || c == '*' || c == '?' || c == '[' || c == '^' || c == ']'
    || c == '$' || c == '(' || c == ')' || c == '{' || c == '}' || c == '=' || c == '!' || c == '<'
    || c == '>' || c == '|' || c == ':' || c == '-' || c == '#' || c == '/'
  }

  function QuoteChar(c: char): string
  {
    if c == '\0' then "\\000"
    else if IsMeta(c) then ['\\', c]
    else [c]
  }

  /** `preg_quote(s, '/')`. */
  function PregQuote(s: string): (q: string)
    ensures |q| >= |s|
    ensures |q| == |s| <==> forall i :: 0 <= i < |s| ==> !IsMeta(s[i]) && s[i] != '\0'
    ensures |q| == |s| ==> q == s
  {
    if |s| == 0 then ""
    else
      assert forall i :: 1 <= i < |s| ==> s[i] == s[1..][i - 1];
      assert s == [s[0]] + s[1..];
      QuoteChar(s[0]) + PregQuote(s[1..])
  }

  /**
   * The characters PCRE gives a meaning of their own outside a character
   * class, together with the `/` delimiter that would end the pattern.
   */
  predicate IsOperator(c: char)
  {
    c == '\\' || c == '^' || c == '$' || c == '.' || c == '[' || c == ']' || c == '|' || c == '('
    || c == ')' || c == '?' || c == '*' || c == '+' || c == '{' || c == '}' || c == '/'
  }

  /**
   * How PCRE reads a pattern as literal text, `None` where it would not:
   * `\000` is NUL, a backslash before a character that is not a letter or
   * digit stands for that character, a backslash before a letter or digit
   * starts an escape with a meaning of its own (`\d`, `\1`, ...), a trailing
   * backslash is an error, an unescaped operator is an operator, and every
   * other character stands for itself.
   */
  function ReadLiteral(q: string): (r: Option<string>)
    ensures |q| > 0 && IsOperator(q[0]) && q[0] != '\\' ==> r.None?
    ensures r.Some? ==> |r.value| <= |q|
  {
    if |q| == 0 then Some("")
    else if q[0] == '\\' then
      if |q| >= 4 && q[1..4] == "000" then Prepend('\0', ReadLiteral(q[4..]))
      else if |q| >= 2 && !IsAlnum(q[1]) then Prepend(q[1], ReadLiteral(q[2..]))
      else None
    else if IsOperator(q[0]) then None
    else Prepend(q[0], ReadLiteral(q[1..]))
  }

  function Prepend(c: char, r: Option<string>): Option<string>
  {
    match r
    case Some(t) => Some([c] + t)
    case None => None
  }

  /** Every operator is a character `preg_quote` escapes. */
  lemma OperatorsAreQuoted(c: char)
    ensures IsOperator(c) ==> IsMeta(c) && QuoteChar(c) == ['\\', c]
  {
  }

  /** Quoting loses nothing: the quoted text reads back, as literal text, as the text itself. */
  lemma {:induction false} ReadPregQuote(s: string)
    ensures ReadLiteral(PregQuote(s)) == Some(s)
    decreases |s|
  {
    if |s| > 0 {
      var c := s[0];
      var rest := PregQuote(s[1..]);
      ReadPregQuote(s[1..]);
      var q := QuoteChar(c) + rest;
      assert PregQuote(s) == q;
      if c == '\0' {
        assert q[1..4] == "000";
        assert q[4..] == rest;
      } else if IsMeta(c) {
        assert q[0] == '\\' && q[1] == c && !IsAlnum(c);
        assert !(|q| >= 4 && q[1..4] == "000") by {
          if |q| >= 4 { assert q[1..4][0] == c; }
        }
        assert q[2..] == rest;
      } else {
        assert q[0] == c && c != '\\' && !IsOperator(c);
        assert q[1..] == rest;
      }
      assert s == [c] + s[1..];
    }
  }

  /** A pattern with an operator nobody escaped is not literal text. */
  lemma {:induction false} UnquotedOperatorIsNotLiteral(x: string, c: char, y: string)
    requires IsOperator(c) && c != '\\'
    requires forall i :: 0 <= i < |x| ==> x[i] != '\\' && !IsOperator(x[i])
    ensures ReadLiteral(x + [c] + y).None?
    decreases |x|
  {
    if |x| > 0 {
      assert (x + [c] + y)[1..] == x[1..] + [c] + y;
      UnquotedOperatorIsNotLiteral(x[1..], c, y);
    } else {
      assert (x + [c] + y)[0] == c;
    }
  }

  /** Different texts give different quoted strings. */
  lemma PregQuoteInjective(a: string, b: string)
    ensures PregQuote(a) == PregQuote(b) ==> a == b
  {
    ReadPregQuote(a);
    ReadPregQuote(b);
  }

  /**
   * `getEscapedPattern(text)`: the quoted text alone when escaping leaves it
   * unchanged, otherwise the alternation of the quoted text and the quoted
   * escaped text.
   */
  function EscapedPattern(text: string): (p: string)
    ensures NeedsNoEscaping(text) ==> p == PregQuote(text)
    ensures !NeedsNoEscaping(text) ==> p == "(" + PregQuote(text) + "|" + PregQuote(Escape(text)) + ")"
  {
    PregQuoteInjective(text, Escape(text));
    EscapeFixpoint(text);
    var raw := PregQuote(text);
    var escaped := PregQuote(Escape(text));
    if raw == escaped then raw else "(" + raw + "|" + escaped + ")"
  }

  /** The literals the pattern for `text` stands for. */
  function Alternatives(text: string): (alts: seq<string>)
    ensures text in alts && Escape(text) in alts
    ensures forall a :: a in alts ==> a == text || a == Escape(text)
    ensures |alts| == 1 <==> NeedsNoEscaping(text)
  {
    EscapeFixpoint(text);
    if Escape(text) == text then [text] else [text, Escape(text)]
  }

  /** The pattern is the quoted alternatives: one alone, or two in a group. */
  lemma PatternOfAlternatives(text: string)
    ensures var alts := Alternatives(text);
      && (|alts| == 1 ==> EscapedPattern(text) == PregQuote(alts[0]))
      && (|alts| == 2 ==> EscapedPattern(text) == "(" + PregQuote(alts[0]) + "|" + PregQuote(alts[1]) + ")")
  {
  }

  /** `preg_match("/{EscapedPattern(text)}/i", subject)`: some alternative occurs, ignoring case. */
  predicate Found(subject: string, text: string)
  {
    exists a :: a in Alternatives(text) && ContainsNoCase(subject, a)
  }

  lemma FoundIff(subject: string, text: string)
    ensures Found(subject, text) <==> ContainsNoCase(subject, text) || ContainsNoCase(subject, Escape(text))
  {
  }

  /** A text that needs no escaping is searched for as itself alone. */
  lemma FoundPlain(subject: string, text: string)
    requires NeedsNoEscaping(text)
    ensures Found(subject, text) <==> ContainsNoCase(subject, text)
  {
    EscapeFixpoint(text);
  }

  /** The escaped form of a text is searched for as itself: escaping it again changes nothing. */
  lemma FoundEscaped(subject: string, text: string)
    ensures Found(subject, Escape(text)) <==> ContainsNoCase(subject, Escape(text))
  {
    EscapeIdempotent(text);
    EscapeFixpoint(Escape(text));
  }
}

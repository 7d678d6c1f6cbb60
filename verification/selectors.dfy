/**
 * The "name or id" selector the crawler builds for a field token
 * (`Crawler::filterByNameOrId` and `FormFieldConstraint::getElements`).
 *
 * The token loses every `#`; the result is the field name, and the id part
 * of the selector is that name with `[` and `]` backslash-escaped. For each
 * element kind the group holds `{kind}#{id}, {kind}[name='{name}']` (an ID
 * selector and an attribute selector, section 6.5 and section 6.3 of
 * Selectors Level 3), and the kinds are joined with `, ` (a selector group,
 * section 5 of the same recommendation).
 *
 * When the name is a plain CSS identifier (brackets allowed, since they are
 * escaped) the selector is evaluated here: an element matches when its kind
 * matches and its `id` or `name` attribute equals the name. Any other name is
 * handed, as the rendered string, to the CSS component.
 */
module Selectors {
  import opened Outcome
  import opened Strings
  import opened Dom

  /** The element kinds the crawler and the form constraints look up. */
  datatype Kind =
    | AnyElement                          // `*`
    | Tag(name: string)                   // `a`, `input`, `select`, ...
    | TypedTag(name: string, typ: string) // `input[type="checkbox"]`

  function KindText(k: Kind): string
  {
    match k
    case AnyElement => "*"
    case Tag(t) => t
    case TypedTag(t, ty) => t + "[type=\"" + ty + "\"]"
  }

  predicate KindMatches(k: Kind, n: Node)
  {
    match k
    case AnyElement => n.Element?
    case Tag(t) => n.Element? && n.tag == t
    case TypedTag(t, ty) => n.Element? && n.tag == t && Attr(n, "type") == Some(ty)
  }

  /** The field name: the token with every `#` removed. */
  function FieldName(token: string): (name: string)
    ensures '#' !in name
    ensures forall c :: c != '#' ==> multiset(name)[c] == multiset(token)[c]
  {
    RemoveChar(token, '#')
  }

  /** Backslash before each `[` and `]`, character by character. */
  function EscapeBrackets(s: string): string
  {
    if |s| == 0 then ""
    else (if s[0] == '[' || s[0] == ']' then ['\\', s[0]] else [s[0]]) + EscapeBrackets(s[1..])
  }

  /**
   * The id part: `[` replaced by `\[` throughout, then `]` replaced by `\]`
   * throughout. It reads back, under CSS escaping, as the name itself.
   */
  function Identifier(name: string): (id: string)
    ensures '\\' !in name ==> CssUnescape(id) == name
    ensures '[' !in name && ']' !in name ==> id == name
    ensures id == EscapeBrackets(name)
  {
    TwoPassesEscapeBrackets(name);
    UnescapeEscapeBrackets(name);
    ReplaceChar(ReplaceChar(name, '[', "\\["), ']', "\\]")
  }

  lemma {:induction false} ReplaceCharAppend(x: string, y: string, c: char, rep: string)
    ensures ReplaceChar(x + y, c, rep) == ReplaceChar(x, c, rep) + ReplaceChar(y, c, rep)
    decreases |x|
  {
    if |x| > 0 {
      assert (x + y)[1..] == x[1..] + y;
      ReplaceCharAppend(x[1..], y, c, rep);
    } else {
      assert x + y == y;
    }
  }

  /** The two `str_replace` passes escape each bracket exactly once. */
  lemma {:induction false} TwoPassesEscapeBrackets(s: string)
    ensures ReplaceChar(ReplaceChar(s, '[', "\\["), ']', "\\]") == EscapeBrackets(s)
    decreases |s|
  {
    if |s| > 0 {
      var head := if s[0] == '[' then "\\[" else [s[0]];
      var first := ReplaceChar(s, '[', "\\[");
      assert first == head + ReplaceChar(s[1..], '[', "\\[");
      ReplaceCharAppend(head, ReplaceChar(s[1..], '[', "\\["), ']', "\\]");
      TwoPassesEscapeBrackets(s[1..]);
      if s[0] == '[' {
        assert ReplaceChar(head, ']', "\\]") == "\\[";
      } else {
        assert ReplaceChar(head, ']', "\\]") == (if s[0] == ']' then "\\]" else [s[0]]);
      }
    }
  }

  predicate IsHexDigit(c: char)
  {
    '0' <= c <= '9' || 'a' <= c <= 'f' || 'A' <= c <= 'F'
  }

  /**
   * CSS reading of an identifier: a backslash followed by a character that is
   * not a hex digit stands for that character.
   */
  function CssUnescape(s: string): string
  {
    if |s| == 0 then ""
    else if s[0] == '\\' && |s| > 1 && !IsHexDigit(s[1]) then [s[1]] + CssUnescape(s[2..])
    else [s[0]] + CssUnescape(s[1..])
  }

  lemma {:induction false} UnescapeEscapeBrackets(s: string)
    ensures '\\' !in s ==> CssUnescape(EscapeBrackets(s)) == s
    decreases |s|
  {
    if |s| > 0 && '\\' !in s {
      UnescapeEscapeBrackets(s[1..]);
      var rest := EscapeBrackets(s[1..]);
      if s[0] == '[' || s[0] == ']' {
        assert EscapeBrackets(s) == ['\\', s[0]] + rest;
        assert (['\\', s[0]] + rest)[2..] == rest;
      } else {
        assert EscapeBrackets(s) == [s[0]] + rest;
        assert ([s[0]] + rest)[1..] == rest;
      }
    }
  }

  /** `"{kind}#{identifier}, {kind}[name='{name}']"` for one element kind. */
  function Alternative(k: Kind, token: string): string
  {
    KindText(k) + "#" + Identifier(FieldName(token)) + ", " + KindText(k) + "[name='" + FieldName(token) + "']"
  }

  /** `getElements()`: one alternative per element kind, in the order of the kinds. */
  function Alternatives(token: string, kinds: seq<Kind>): (r: seq<string>)
    ensures |r| == |kinds|
    ensures forall i :: 0 <= i < |kinds| ==> r[i] == Alternative(kinds[i], token)
  {
    if |kinds| == 0 then [] else [Alternative(kinds[0], token)] + Alternatives(token, kinds[1..])
  }

  /** The selector string handed to `filter`: the alternatives joined with ", ". */
  function GroupSelector(token: string, kinds: seq<Kind>): string
  {
    Join(Alternatives(token, kinds), ", ")
  }

  predicate IsNameChar(c: char)
  {
    'a' <= c <= 'z' || 'A' <= c <= 'Z' || '0' <= c <= '9' || c == '_' || c == '-' || c as int > 127
  }

  predicate IsNameStart(c: char)
  {
    'a' <= c <= 'z' || 'A' <= c <= 'Z' || c == '_' || c == '[' || c == ']' || c as int > 127
  }

  /**
   * A name whose identifier is a single CSS identifier (`-?` name-start,
   * then name characters, the escaped brackets counting as either) and whose
   * quoted form needs no escaping.
   */
  predicate IsPlainName(name: string)
  {
    && (forall i :: 0 <= i < |name| ==> IsNameChar(name[i]) || name[i] == '[' || name[i] == ']')
    && |name| > 0
    && (if name[0] == '-' then |name| > 1 && IsNameStart(name[1]) else IsNameStart(name[0]))
  }

  /** What the group denotes for an element: a listed kind, and the name as id or name attribute. */
  predicate MatchesNameOrId(n: Node, name: string, kinds: seq<Kind>)
  {
    exists i :: 0 <= i < |kinds| && KindMatches(kinds[i], n)
      && (Attr(n, "id") == Some(name) || Attr(n, "name") == Some(name))
  }

  /** The predicate the selector group stands for, as a node test. */
  function NamedTest(name: string, kinds: seq<Kind>): Node -> bool
  {
    n => MatchesNameOrId(n, name, kinds)
  }

  /**
   * `filter(GroupSelector(token, kinds))` on the view. A plain name is
   * matched here; any other name goes to the CSS component as the rendered
   * string.
   */
  function SelectNameOrId(eng: Engine, view: seq<Node>, token: string, kinds: seq<Kind>): (r: Result<seq<Node>>)
    ensures IsPlainName(FieldName(token)) ==>
      r.Ok? && forall m :: m in r.value <==> m in PreorderAll(view) && MatchesNameOrId(m, FieldName(token), kinds)
    ensures IsPlainName(FieldName(token)) && r.Ok? && |r.value| > 0 ==>
      exists i :: FirstAt(PreorderAll(view), i, NamedTest(FieldName(token), kinds)) && r.value[0] == PreorderAll(view)[i]
  {
    var name := FieldName(token);
    if IsPlainName(name) then
      WhereHead(PreorderAll(view), NamedTest(name, kinds));
      Ok(Select(view, NamedTest(name, kinds)))
    else Filter(eng, view, GroupSelector(token, kinds))
  }

  /** `#` plays no part in the selector: `#name` and `name` give the same group. */
  lemma SelectorIgnoresHashes(token: string, kinds: seq<Kind>)
    ensures GroupSelector(token, kinds) == GroupSelector(FieldName(token), kinds)
  {
    assert FieldName(FieldName(token)) == FieldName(token);
    assert Alternatives(token, kinds) == Alternatives(FieldName(token), kinds);
  }

  /** A token without `#` or brackets appears verbatim in both halves of every alternative. */
  lemma PlainTokenSelector(token: string, kinds: seq<Kind>)
    requires '#' !in token && '[' !in token && ']' !in token
    ensures forall i :: 0 <= i < |kinds| ==>
      Alternatives(token, kinds)[i]
        == KindText(kinds[i]) + "#" + token + ", " + KindText(kinds[i]) + "[name='" + token + "']"
  {
  }

  lemma {:induction false} EscapeBracketsAppend(x: string, y: string)
    ensures EscapeBrackets(x + y) == EscapeBrackets(x) + EscapeBrackets(y)
    decreases |x|
  {
    if |x| > 0 {
      assert (x + y)[1..] == x[1..] + y;
      EscapeBracketsAppend(x[1..], y);
    } else {
      assert x + y == y;
    }
  }

  lemma ArrayIdentifier(base: string)
    requires '[' !in base && ']' !in base
    ensures Identifier(base + "[]") == base + "\\[\\]"
  {
    TwoPassesEscapeBrackets(base + "[]");
    EscapeBracketsAppend(base, "[]");
    TwoPassesEscapeBrackets(base);
    EscapeBracketPair();
  }

  lemma EscapeBracketPair()
    ensures EscapeBrackets("[]") == "\\[\\]"
  {
    assert "[]"[1..] == "]";
    assert "]"[1..] == "";
  }

  /**
   * An array-style token `base[]`: the name keeps the brackets and the id
   * escapes both of them.
   */
  lemma ArrayTokenSelector(base: string, k: Kind)
    requires '#' !in base && '[' !in base && ']' !in base
    ensures Alternative(k, base + "[]")
         == KindText(k) + "#" + (base + "\\[\\]") + ", " + KindText(k) + "[name='" + (base + "[]") + "']"
  {
    var token := base + "[]";
    assert '#' !in token;
    assert FieldName(token) == token;
    ArrayIdentifier(base);
  }
}

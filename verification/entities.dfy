/**
 * `htmlspecialchars($text, ENT_QUOTES, 'UTF-8', false)`, as
 * `PageConstraint::convertToEntities` calls it: `&`, `"`, `'`, `<` and `>`
 * become entities, except that an `&` which already starts an entity is
 * kept (the `double_encode = false` argument).
 */
module Entities {
  import opened Outcome
  import opened Strings

  predicate IsHex(c: char) { IsDigit(c) || 'a' <= c <= 'f' || 'A' <= c <= 'F' }

  predicate IsAlnum(c: char) { IsDigit(c) || 'a' <= c <= 'z' || 'A' <= c <= 'Z' }

  /** The characters `convertToEntities` rewrites, apart from `&`. */
  predicate Special(c: char) { c == '<' || c == '>' || c == '"' || c == '\'' }

  /**
   * The length of the entity that starts `s`, or 0 when `s` does not start
   * with one: `&name;` with an alphanumeric name, `&#digits;` or `&#xhex;`.
   */
  function EntityLength(s: string): (n: nat)
    ensures n == 0 || (3 <= n <= |s| && s[0] == '&' && s[n - 1] == ';')
    ensures forall i :: 0 <= i < n ==> !Special(s[i])
    ensures forall i :: 0 < i < n ==> s[i] != '&'
  {
    if |s| < 3 || s[0] != '&' then 0
    else if s[1] == '#' then
      if s[2] == 'x' || s[2] == 'X' then
        var k := Run(s[3..], IsHex);
        if k > 0 && 3 + k < |s| && s[3 + k] == ';' then k + 4 else 0
      else
        var k := Run(s[2..], IsDigit);
        if k > 0 && 2 + k < |s| && s[2 + k] == ';' then k + 3 else 0
    else
      var k := Run(s[1..], IsAlnum);
      if k > 0 && 1 + k < |s| && s[1 + k] == ';' then k + 2 else 0
  }

  /** What follows an entity does not change where the entity ends. */
  lemma EntityStable(s: string, t: string)
    requires EntityLength(s) > 0
    ensures EntityLength(s[..EntityLength(s)] + t) == EntityLength(s)
  {
    var n := EntityLength(s);
    var u := s[..n] + t;
    assert forall i :: 0 <= i < n ==> u[i] == s[i];
    if s[1] == '#' {
      if s[2] == 'x' || s[2] == 'X' {
        assert forall i :: 0 <= i < n - 4 ==> u[3..][i] == s[3..][i];
        RunIs(u[3..], IsHex, n - 4);
      } else {
        assert forall i :: 0 <= i < n - 3 ==> u[2..][i] == s[2..][i];
        assert u[2..][n - 3] == ';';
        RunIs(u[2..], IsDigit, n - 3);
      }
    } else {
      assert forall i :: 0 <= i < n - 2 ==> u[1..][i] == s[1..][i];
      RunIs(u[1..], IsAlnum, n - 2);
    }
  }

  /** The replacement for one character that does not start an entity. */
  function EscapeChar(c: char): string
  {
    match c
    case '&' => "&amp;"
    case '"' => "&quot;"
    case '\'' => "&#039;"
    case '<' => "&lt;"
    case '>' => "&gt;"
    case _ => [c]
  }

  /** `convertToEntities`: entities are copied, the other special characters replaced. */
  function Escape(s: string): (r: string)
    ensures forall i :: 0 <= i < |r| ==> !Special(r[i])
    decreases |s|
  {
    if |s| == 0 then ""
    else if EntityLength(s) > 0 then
      CleanAppend(s[..EntityLength(s)], Escape(s[EntityLength(s)..]));
      s[..EntityLength(s)] + Escape(s[EntityLength(s)..])
    else
      EscapeCharClean(s[0]);
      CleanAppend(EscapeChar(s[0]), Escape(s[1..]));
      EscapeChar(s[0]) + Escape(s[1..])
  }

  /** Two texts without special characters make one. */
  lemma CleanAppend(a: string, b: string)
    requires forall i :: 0 <= i < |a| ==> !Special(a[i])
    requires forall i :: 0 <= i < |b| ==> !Special(b[i])
    ensures forall i :: 0 <= i < |a + b| ==> !Special((a + b)[i])
  {
  }

  /** A replacement holds no special character. */
  lemma EscapeCharClean(c: char)
    ensures forall i :: 0 <= i < |EscapeChar(c)| ==> !Special(EscapeChar(c)[i])
  {
  }

  /** A string `convertToEntities` leaves alone: no special character, every `&` starts an entity. */
  predicate NeedsNoEscaping(s: string)
  {
    && (forall i :: 0 <= i < |s| ==> !Special(s[i]))
    && (forall i {:trigger s[i..]} :: 0 <= i < |s| && s[i] == '&' ==> EntityLength(s[i..]) > 0)
  }

  lemma EscapeEntityPrefix(e: string, t: string)
    requires EntityLength(e) == |e| > 0
    ensures Escape(e + t) == e + Escape(t)
  {
    EntityStable(e, t);
    assert e[..|e|] == e;
    assert (e + t)[..|e|] == e;
    assert (e + t)[|e|..] == t;
  }

  lemma EscapeCharPrefix(c: char, t: string)
    requires c == '&' || Special(c)
    ensures Escape(EscapeChar(c) + t) == EscapeChar(c) + Escape(t)
  {
    var e := EscapeChar(c);
    EscapeCharIsEntity(c);
    EscapeEntityPrefix(e, t);
  }

  /** Escaping twice is escaping once: the entities the first pass makes are kept by the second. */
  lemma {:induction false} EscapeIdempotent(s: string)
    ensures Escape(Escape(s)) == Escape(s)
    decreases |s|
  {
    if |s| > 0 {
      var n := EntityLength(s);
      if n > 0 {
        EntityStable(s, "");
        assert s[..n] + "" == s[..n];
        EscapeEntityPrefix(s[..n], Escape(s[n..]));
        EscapeIdempotent(s[n..]);
      } else {
        var c := s[0];
        if c == '&' || Special(c) {
          EscapeCharPrefix(c, Escape(s[1..]));
        } else {
          assert EscapeChar(c) == [c];
          var t := Escape(s[1..]);
          assert ([c] + t)[1..] == t;
          assert EntityLength([c] + t) == 0;
        }
        EscapeIdempotent(s[1..]);
      }
    }
  }

  lemma NeedsNoEscapingSuffix(s: string, k: nat)
    requires k <= |s| && NeedsNoEscaping(s)
    ensures NeedsNoEscaping(s[k..])
  {
    forall i | 0 <= i < |s[k..]| && s[k..][i] == '&'
      ensures EntityLength(s[k..][i..]) > 0
    {
      assert s[k..][i..] == s[k + i..];
    }
  }

  /** An entity followed by a string that needs no escaping needs none either. */
  lemma NeedsNoEscapingAfterEntity(s: string, n: nat)
    requires 0 < n == EntityLength(s) && NeedsNoEscaping(s[n..])
    ensures NeedsNoEscaping(s)
  {
    forall i | 0 <= i < |s| && s[i] == '&' ensures EntityLength(s[i..]) > 0 {
      if i >= n {
        assert s[i..] == s[n..][i - n..];
      }
    }
    forall i | 0 <= i < |s| ensures !Special(s[i]) {
      if i >= n {
        assert s[i] == s[n..][i - n];
      }
    }
  }

  /** A character that escapes to itself, followed by a string that needs no escaping, needs none. */
  lemma NeedsNoEscapingAfterChar(s: string)
    requires |s| > 0 && EntityLength(s) == 0 && EscapeChar(s[0]) == [s[0]]
    requires NeedsNoEscaping(s[1..])
    ensures NeedsNoEscaping(s)
  {
    forall i | 0 <= i < |s| && s[i] == '&' ensures EntityLength(s[i..]) > 0 {
      assert s[i..] == s[1..][i - 1..];
    }
    forall i | 0 <= i < |s| ensures !Special(s[i]) {
      if i > 0 {
        assert s[i] == s[1..][i - 1];
      }
    }
  }

  /** Every character escapes to at least one character, and only the untouched ones to exactly one. */
  lemma EscapeCharLength(c: char)
    ensures |EscapeChar(c)| >= 1
    ensures |EscapeChar(c)| == 1 ==> EscapeChar(c) == [c]
  {
  }

  /**
   * Escaping never shortens a string, and leaves its length unchanged only
   * when there was nothing to escape.
   */
  lemma {:induction false} EscapeLength(s: string)
    ensures |Escape(s)| >= |s|
    ensures |Escape(s)| == |s| ==> NeedsNoEscaping(s)
    decreases |s|
  {
    if |s| > 0 {
      var n := EntityLength(s);
      if n > 0 {
        EscapeLength(s[n..]);
        assert Escape(s) == s[..n] + Escape(s[n..]);
        if |Escape(s)| == |s| {
          NeedsNoEscapingAfterEntity(s, n);
        }
      } else {
        EscapeLength(s[1..]);
        EscapeCharLength(s[0]);
        assert Escape(s) == EscapeChar(s[0]) + Escape(s[1..]);
        if |Escape(s)| == |s| {
          NeedsNoEscapingAfterChar(s);
        }
      }
    }
  }

  /**
   * The first step of escaping a string that needs no escaping copies its
   * first entity, or its first character, and leaves a rest that needs no
   * escaping either.
   */
  lemma NoEscapingStep(s: string) returns (n: nat)
    requires |s| > 0 && NeedsNoEscaping(s)
    ensures 0 < n <= |s| && NeedsNoEscaping(s[n..])
    ensures Escape(s) == s[..n] + Escape(s[n..])
  {
    if EntityLength(s) > 0 {
      n := EntityLength(s);
    } else {
      n := 1;
      assert s[0] != '&' by { assert s[0..] == s; }
      assert EscapeChar(s[0]) == [s[0]];
    }
    NeedsNoEscapingSuffix(s, n);
  }

  /** A string that needs no escaping is left as it is. */
  lemma {:induction false} NoEscapingIsFixed(s: string)
    requires NeedsNoEscaping(s)
    ensures Escape(s) == s
    decreases |s|
  {
    if |s| > 0 {
      var n := NoEscapingStep(s);
      NoEscapingIsFixed(s[n..]);
      SplitJoin(s, n);
    }
  }

  /** A string is its own escaped form exactly when it needs no escaping. */
  lemma EscapeFixpoint(s: string)
    ensures Escape(s) == s <==> NeedsNoEscaping(s)
  {
    if NeedsNoEscaping(s) {
      NoEscapingIsFixed(s);
    } else {
      EscapeLength(s);
    }
  }

  /**
   * The character the first `k` characters of `s` stand for when they are
   * one of the five entities `Escape` writes.
   */
  function Replaced(s: string, k: nat): Option<char>
    requires k <= |s|
  {
    if k < 4 || s[0] != '&' || s[k - 1] != ';' then None
    else if k == 5 && s[1] == 'a' && s[2] == 'm' && s[3] == 'p' then Some('&')
    else if k == 6 && s[1] == 'q' && s[2] == 'u' && s[3] == 'o' && s[4] == 't' then Some('"')
    else if k == 6 && s[1] == '#' && s[2] == '0' && s[3] == '3' && s[4] == '9' then Some('\'')
    else if k == 4 && s[1] == 'l' && s[2] == 't' then Some('<')
    else if k == 4 && s[1] == 'g' && s[2] == 't' then Some('>')
    else None
  }

  /**
   * The character the start of `s` reads as, and how many characters it
   * takes: one of the five entities, or a single character.
   */
  function DecodeHead(s: string): (h: (char, nat))
    requires |s| > 0
    ensures 1 <= h.1 <= |s|
  {
    if |s| >= 4 && Replaced(s, 4).Some? then (Replaced(s, 4).value, 4)
    else if |s| >= 5 && Replaced(s, 5).Some? then (Replaced(s, 5).value, 5)
    else if |s| >= 6 && Replaced(s, 6).Some? then (Replaced(s, 6).value, 6)
    else (s[0], 1)
  }

  /**
   * Reading the five entities `Escape` writes back as their characters;
   * every other character, other entities included, reads as itself.
   */
  function Decode(s: string): string
    decreases |s|
  {
    if |s| == 0 then "" else [DecodeHead(s).0] + Decode(s[DecodeHead(s).1..])
  }

  /** A character other than `&` reads as itself. */
  lemma DecodePlainHead(s: string)
    requires |s| > 0 && s[0] != '&'
    ensures Decode(s) == [s[0]] + Decode(s[1..])
  {
    assert DecodeHead(s) == (s[0], 1);
  }

  lemma SplitRun(v: string, k: nat)
    requires 0 < k <= |v|
    ensures v[1..][..k - 1] == v[1..k] && v[1..][k - 1..] == v[k..]
    ensures forall d :: v[..k] + d == [v[0]] + (v[1..k] + d)
  {
  }

  /** A run of characters other than `&` reads as itself. */
  lemma {:induction false} DecodePlainRun(v: string, k: nat)
    requires k <= |v| && forall i :: 0 <= i < k ==> v[i] != '&'
    ensures Decode(v) == v[..k] + Decode(v[k..])
    decreases k
  {
    if k > 0 {
      DecodePlainHead(v);
      DecodePlainRun(v[1..], k - 1);
      SplitRun(v, k);
    }
  }

  /** Text without `&` reads as itself, whatever follows it. */
  lemma DecodeNoAmpersand(x: string, t: string)
    requires forall i :: 0 <= i < |x| ==> x[i] != '&'
    ensures Decode(x + t) == x + Decode(t)
  {
    var u := x + t;
    DecodePlainRun(u, |x|);
    assert u[..|x|] == x && u[|x|..] == t;
  }

  /** Inside an entity only the last character is a `;`. */
  lemma EntityHasOneSemicolon(e: string)
    requires EntityLength(e) == |e| > 0
    ensures forall i :: 0 <= i < |e| - 1 ==> e[i] != ';'
  {
  }

  /** Each of the five entities ends at its only `;`. */
  lemma ReplacedShape(s: string, k: nat)
    requires k <= |s|
    ensures Replaced(s, k).Some? ==> 4 <= k && s[0] == '&' && s[k - 1] == ';'
    ensures Replaced(s, k).Some? ==> forall i :: 0 <= i < k - 1 ==> s[i] != ';'
  {
  }

  /** After an entity, none of the five entities can start earlier or end later than it does. */
  lemma ReplacedAfterEntity(e: string, t: string, k: nat)
    requires EntityLength(e) == |e| > 0 && k <= |e + t|
    ensures k != |e| ==> Replaced(e + t, k).None?
    ensures k == |e| ==> Replaced(e + t, k) == Replaced(e, k)
  {
    var u := e + t;
    EntityHasOneSemicolon(e);
    if 0 < k < |e| {
      assert u[k - 1] == e[k - 1];
    } else if k > |e| {
      ReplacedShape(u, k);
      assert u[|e| - 1] == e[|e| - 1] == ';';
    } else {
      assert forall i :: 0 <= i < k ==> u[i] == e[i];
    }
  }

  /** What an entity reads as on its own: its character if it is one of the five, else itself. */
  function DecodeEntity(e: string): string
  {
    if 4 <= |e| <= 6 && Replaced(e, |e|).Some? then [Replaced(e, |e|).value] else e
  }

  /** The head of a string an entity starts is read from the entity alone. */
  lemma DecodeHeadAfterEntity(e: string, t: string)
    requires EntityLength(e) == |e| > 0
    ensures DecodeHead(e + t)
      == if 4 <= |e| <= 6 && Replaced(e, |e|).Some? then (Replaced(e, |e|).value, |e|) else ('&', 1)
  {
    var u := e + t;
    if |u| >= 4 { ReplacedAfterEntity(e, t, 4); }
    if |u| >= 5 { ReplacedAfterEntity(e, t, 5); }
    if |u| >= 6 { ReplacedAfterEntity(e, t, 6); }
  }

  lemma DecodeAmpersandHead(u: string)
    requires |u| > 0 && DecodeHead(u) == ('&', 1)
    ensures Decode(u) == "&" + Decode(u[1..])
  {
  }

  lemma SplitAfterHead(e: string, t: string, d: string)
    requires |e| > 0
    ensures (e + t)[1..] == e[1..] + t
    ensures e + d == [e[0]] + (e[1..] + d)
  {
  }

  /** A `&` read as itself, followed by no other `&`, reads as itself whatever follows it. */
  lemma DecodeOtherEntityThen(e: string, t: string)
    requires |e| > 0 && e[0] == '&' && forall i :: 0 < i < |e| ==> e[i] != '&'
    requires DecodeHead(e + t) == ('&', 1)
    ensures Decode(e + t) == e + Decode(t)
  {
    DecodeAmpersandHead(e + t);
    SplitAfterHead(e, t, Decode(t));
    DecodeNoAmpersand(e[1..], t);
  }

  /** An entity followed by `t` reads as the entity does on its own, then as `t` does. */
  lemma DecodeEntityThen(e: string, t: string)
    requires EntityLength(e) == |e| > 0
    ensures Decode(e + t) == DecodeEntity(e) + Decode(t)
  {
    DecodeHeadAfterEntity(e, t);
    if 4 <= |e| <= 6 && Replaced(e, |e|).Some? {
      assert (e + t)[|e|..] == t;
    } else {
      DecodeOtherEntityThen(e, t);
    }
  }

  /** An entity reads the same whatever follows it. */
  lemma DecodeEntityPrefix(e: string, t: string)
    requires EntityLength(e) == |e| > 0
    ensures Decode(e + t) == Decode(e) + Decode(t)
  {
    DecodeEntityThen(e, t);
    DecodeEntityThen(e, "");
    assert e + "" == e;
    assert Decode("") == "";
    assert DecodeEntity(e) + "" == DecodeEntity(e);
  }

  lemma EscapeCharIsEntity(c: char)
    requires c == '&' || Special(c)
    ensures EntityLength(EscapeChar(c)) == |EscapeChar(c)|
  {
    var e := EscapeChar(c);
    if c == '\'' {
      RunIs(e[2..], IsDigit, 3);
    } else {
      RunIs(e[1..], IsAlnum, |e| - 2);
    }
  }

  /** Each replacement reads back as the character it replaced. */
  lemma DecodeEscapeChar(c: char, t: string)
    requires c == '&' || Special(c)
    ensures Decode(EscapeChar(c) + t) == [c] + Decode(t)
  {
    var e := EscapeChar(c);
    var u := e + t;
    assert forall i :: 0 <= i < |e| ==> u[i] == e[i];
    assert DecodeHead(u) == (c, |e|);
    assert u[|e|..] == t;
  }

  /** One of the five entities is an entity, so a `&` that starts no entity starts none of them. */
  lemma ReplacedIsEntity(s: string, k: nat)
    requires k <= |s| && Replaced(s, k).Some?
    ensures EntityLength(s) == k
  {
    var c := Replaced(s, k).value;
    var e := EscapeChar(c);
    assert s[..k] == e;
    EscapeCharIsEntity(c);
    EntityStable(e, s[k..]);
    assert e[..|e|] == e;
    assert s == e + s[k..];
  }

  /** A `&` that starts no entity reads as itself. */
  lemma DecodeLoneAmpersand(s: string)
    requires |s| > 0 && s[0] == '&' && EntityLength(s) == 0
    ensures Decode(s) == "&" + Decode(s[1..])
  {
    if |s| >= 4 && Replaced(s, 4).Some? { ReplacedIsEntity(s, 4); }
    if |s| >= 5 && Replaced(s, 5).Some? { ReplacedIsEntity(s, 5); }
    if |s| >= 6 && Replaced(s, 6).Some? { ReplacedIsEntity(s, 6); }
  }

  /**
   * Escaping changes how a string is written, never what it reads as: the
   * escaped string decodes to what the original decodes to.
   */
  lemma {:induction false} DecodeEscape(s: string)
    ensures Decode(Escape(s)) == Decode(s)
    decreases |s|
  {
    if |s| > 0 {
      var n := EntityLength(s);
      if n > 0 {
        var e := s[..n];
        EntityStable(s, "");
        assert e + "" == e;
        assert s == e + s[n..];
        DecodeEntityPrefix(e, Escape(s[n..]));
        DecodeEntityPrefix(e, s[n..]);
        DecodeEscape(s[n..]);
      } else {
        var c := s[0];
        assert s == [c] + s[1..];
        DecodeEscape(s[1..]);
        if c == '&' || Special(c) {
          DecodeEscapeChar(c, Escape(s[1..]));
          if c == '&' {
            DecodeLoneAmpersand(s);
          } else {
            DecodeNoAmpersand([c], s[1..]);
          }
        } else {
          assert EscapeChar(c) == [c];
          DecodeNoAmpersand([c], Escape(s[1..]));
          DecodeNoAmpersand([c], s[1..]);
        }
      }
    }
  }

  /** A text without `&` is what its escaped form decodes to. */
  lemma DecodeEscapePlain(s: string)
    requires forall i :: 0 <= i < |s| ==> s[i] != '&'
    ensures Decode(Escape(s)) == s
  {
    DecodeEscape(s);
    DecodeNoAmpersand(s, "");
    assert s + "" == s;
  }
}

/**
 * String helpers standing in for the PHP library functions the core calls:
 * `str_replace` with a literal search string, `implode`, ASCII case folding
 * as PCRE's `/i` flag does it without the `/u` flag, PHP's truthiness of
 * strings and PHP's `is_numeric` test.
 */
module Strings {

  /** ASCII lower-casing of one character; every other character is unchanged. */
  function LowerChar(c: char): char
  {
    if 'A' <= c <= 'Z' then (c as int + 32) as char else c
  }

  function Lower(s: string): (r: string)
    ensures |r| == |s|
    ensures forall i :: 0 <= i < |s| ==> r[i] == LowerChar(s[i])
  {
    if |s| == 0 then "" else [LowerChar(s[0])] + Lower(s[1..])
  }

  /** `needle` occurs in `hay` starting at position `i`. */
  predicate OccursAt(needle: string, hay: string, i: int)
  {
    0 <= i && i + |needle| <= |hay| && hay[i..i + |needle|] == needle
  }

  /** `needle` occurs in `hay` as a contiguous factor. */
  predicate Occurs(needle: string, hay: string)
  {
    exists i :: 0 <= i <= |hay| && OccursAt(needle, hay, i)
  }

  /** What a case-insensitive PCRE search for a quoted literal decides. */
  predicate ContainsNoCase(hay: string, needle: string)
  {
    Occurs(Lower(needle), Lower(hay))
  }

  /** `str_replace(c, '', s)`: every occurrence of `c` is deleted. */
  function RemoveChar(s: string, c: char): (r: string)
    ensures c !in r
    ensures |r| <= |s|
    ensures forall x :: x != c ==> multiset(r)[x] == multiset(s)[x]
    ensures c !in s ==> r == s
  {
    if |s| == 0 then ""
    else
      assert s == [s[0]] + s[1..];
      if s[0] == c then RemoveChar(s[1..], c) else [s[0]] + RemoveChar(s[1..], c)
  }

  /** Deleting a character works piece by piece: the survivors keep their order. */
  lemma {:induction false} RemoveCharAppend(x: string, y: string, c: char)
    ensures RemoveChar(x + y, c) == RemoveChar(x, c) + RemoveChar(y, c)
    decreases |x|
  {
    if |x| == 0 {
      assert x + y == y;
    } else {
      assert (x + y)[0] == x[0];
      assert (x + y)[1..] == x[1..] + y;
      RemoveCharAppend(x[1..], y, c);
    }
  }

  /** On one character: the deleted character goes, any other stays. */
  lemma RemoveCharOne(d: char, c: char)
    ensures RemoveChar([d], c) == if d == c then "" else [d]
  {
    assert [d][1..] == "";
  }

  /**
   * `str_replace(pat, '', s)` for one non-empty search string: a single
   * left-to-right scan that deletes non-overlapping occurrences. The text
   * produced by a deletion is not scanned again.
   */
  function RemoveAll(s: string, pat: string): (r: string)
    requires |pat| > 0
    ensures |r| <= |s|
    ensures forall x :: x in r ==> x in s
    ensures !Occurs(pat, s) ==> r == s
    decreases |s|
  {
    if |s| < |pat| then s
    else if s[..|pat|] == pat then
      assert OccursAt(pat, s, 0);
      var rest := RemoveAll(s[|pat|..], pat);
      assert forall x :: x in rest ==> x in s by {
        forall x | x in rest ensures x in s {
          var k :| 0 <= k < |rest| && rest[k] == x;
          assert x in s[|pat|..];
        }
      }
      rest
    else
      var rest := RemoveAll(s[1..], pat);
      OccursInTail(pat, s);
      assert forall x :: x in rest ==> x in s by {
        forall x | x in rest ensures x in s {
          assert x in s[1..];
        }
      }
      [s[0]] + rest
  }

  /** A string is its prefix followed by the matching suffix. */
  lemma SplitJoin(s: string, n: nat)
    requires n <= |s|
    ensures s[..n] + s[n..] == s
  {
  }

  lemma OccursInTail(needle: string, s: string)
    requires |s| > 0
    ensures Occurs(needle, s[1..]) ==> Occurs(needle, s)
  {
    if Occurs(needle, s[1..]) {
      var i :| 0 <= i <= |s[1..]| && OccursAt(needle, s[1..], i);
      assert s[1..][i..i + |needle|] == s[i + 1..i + 1 + |needle|];
      assert OccursAt(needle, s, i + 1);
    }
  }

  /** A string that starts with the pattern loses that occurrence and is scanned on after it. */
  lemma RemoveAllPatternFirst(pat: string, y: string)
    requires |pat| > 0
    ensures RemoveAll(pat + y, pat) == RemoveAll(y, pat)
  {
    assert (pat + y)[..|pat|] == pat;
    assert (pat + y)[|pat|..] == y;
  }

  lemma OccursShift(needle: string, c: char, w: string, i: int)
    ensures OccursAt(needle, w, i) ==> OccursAt(needle, [c] + w, i + 1)
  {
    if OccursAt(needle, w, i) {
      assert ([c] + w)[i + 1..i + 1 + |needle|] == w[i..i + |needle|];
    }
  }

  /**
   * A prefix in which no occurrence of the pattern starts is copied as it
   * is; the scan goes on after it.
   */
  lemma {:induction false} RemoveAllKeepsPrefix(x: string, y: string, pat: string)
    requires |pat| > 0
    requires forall i :: 0 <= i < |x| ==> !OccursAt(pat, x + y, i)
    ensures RemoveAll(x + y, pat) == x + RemoveAll(y, pat)
    decreases |x|
  {
    var s := x + y;
    if |x| == 0 {
      assert s == y;
    } else if |s| < |pat| {
      assert |y| < |pat|;
      assert RemoveAll(y, pat) == y;
    } else {
      assert !OccursAt(pat, s, 0);
      assert s[..|pat|] != pat;
      assert s[1..] == x[1..] + y;
      assert s == [x[0]] + (x[1..] + y);
      forall i | 0 <= i < |x[1..]|
        ensures !OccursAt(pat, x[1..] + y, i)
      {
        OccursShift(pat, x[0], x[1..] + y, i);
      }
      RemoveAllKeepsPrefix(x[1..], y, pat);
      assert x == [x[0]] + x[1..];
    }
  }

  /** `str_replace(c, rep, s)`: every occurrence of `c` becomes `rep`. */
  function ReplaceChar(s: string, c: char, rep: string): (r: string)
    ensures c !in rep ==> c !in r
    ensures c !in s ==> r == s
  {
    if |s| == 0 then ""
    else (if s[0] == c then rep else [s[0]]) + ReplaceChar(s[1..], c, rep)
  }

  /** `implode(sep, parts)`. */
  function Join(parts: seq<string>, sep: string): (r: string)
    ensures |parts| == 0 ==> r == ""
    ensures |parts| == 1 ==> r == parts[0]
  {
    if |parts| == 0 then ""
    else if |parts| == 1 then parts[0]
    else parts[0] + sep + Join(parts[1..], sep)
  }

  predicate IsDigit(c: char) { '0' <= c <= '9' }

  /** PHP's whitespace for numeric strings: space, tab, newline, carriage return, vertical tab, form feed. */
  predicate IsSpace(c: char)
  {
    c == ' ' || c == '\t' || c == '\n' || c == '\r' || c as int == 11 || c as int == 12
  }

  /** Length of the longest prefix of `s` whose characters all satisfy `p`. */
  function Run(s: string, p: char -> bool): (k: nat)
    ensures k <= |s|
    ensures forall i :: 0 <= i < k ==> p(s[i])
    ensures k < |s| ==> !p(s[k])
  {
    if |s| == 0 || !p(s[0]) then 0 else 1 + Run(s[1..], p)
  }

  /** A run is decided by the characters up to and including the one that stops it. */
  lemma {:induction false} RunIs(s: string, p: char -> bool, k: nat)
    requires k < |s| && !p(s[k])
    requires forall i :: 0 <= i < k ==> p(s[i])
    ensures Run(s, p) == k
    decreases k
  {
    if k > 0 {
      RunIs(s[1..], p, k - 1);
    }
  }

  /** Length of the decimal mantissa that starts `s` (digits, a fraction, or both), 0 when there is none. */
  function MantissaLength(s: string): (n: nat)
    ensures n <= |s|
  {
    var d := Run(s, IsDigit);
    if d < |s| && s[d] == '.' then
      var f := Run(s[d + 1..], IsDigit);
      if d + f > 0 then d + 1 + f else 0
    else d
  }

  /** Length of the exponent (`e`, optional sign, digits) that starts `s`, 0 when there is none. */
  function ExponentLength(s: string): (n: nat)
    ensures n <= |s|
  {
    if |s| == 0 || (s[0] != 'e' && s[0] != 'E') then 0
    else
      var sign := if |s| > 1 && (s[1] == '+' || s[1] == '-') then 1 else 0;
      var d := Run(s[1 + sign..], IsDigit);
      if d > 0 then 1 + sign + d else 0
  }

  /**
   * PHP 7's `is_numeric` on a string: optional leading whitespace, an
   * optional sign, a decimal mantissa, an optional exponent, and nothing
   * after it (trailing whitespace is allowed only from PHP 8 on).
   */
  predicate IsNumeric(s: string)
  {
    var lead := Run(s, IsSpace);
    var t := s[lead..];
    var sign := if |t| > 0 && (t[0] == '+' || t[0] == '-') then 1 else 0;
    var m := MantissaLength(t[sign..]);
    if m == 0 then false
    else
      var rest := t[sign + m..];
      ExponentLength(rest) == |rest|
  }

  /** A run over a string whose every character passes covers the whole string. */
  lemma {:induction false} RunAll(s: string, p: char -> bool)
    requires forall i :: 0 <= i < |s| ==> p(s[i])
    ensures Run(s, p) == |s|
    decreases |s|
  {
    if |s| > 0 {
      assert forall i :: 0 <= i < |s[1..]| ==> s[1..][i] == s[i + 1];
      RunAll(s[1..], p);
    }
  }

  /** A non-empty string of decimal digits is numeric. */
  lemma DigitsAreNumeric(s: string)
    requires |s| > 0 && forall i :: 0 <= i < |s| ==> IsDigit(s[i])
    ensures IsNumeric(s)
  {
    assert !IsSpace(s[0]);
    assert Run(s, IsSpace) == 0;
    assert s[0..] == s;
    RunAll(s, IsDigit);
    assert MantissaLength(s) == |s|;
    assert s[|s|..] == "";
    assert ExponentLength("") == 0;
  }

  /** Under PHP 7 a number followed by a space is not numeric. */
  lemma DigitsThenSpaceNotNumeric(s: string)
    requires |s| > 0 && forall i :: 0 <= i < |s| ==> IsDigit(s[i])
    ensures !IsNumeric(s + " ")
  {
    var u := s + " ";
    assert !IsSpace(u[0]);
    assert Run(u, IsSpace) == 0;
    assert u[0..] == u;
    RunIs(u, IsDigit, |s|);
    assert MantissaLength(u) == |s|;
    assert u[|s|..] == " ";
    assert ExponentLength(" ") == 0;
  }

  /** A string that starts with a letter is not numeric. */
  lemma LetterIsNotNumeric(s: string)
    requires |s| > 0 && ('a' <= s[0] <= 'z' || 'A' <= s[0] <= 'Z')
    ensures !IsNumeric(s)
  {
    assert !IsSpace(s[0]) && !IsDigit(s[0]);
    assert Run(s, IsSpace) == 0;
    assert s[0..] == s;
    assert Run(s, IsDigit) == 0;
    assert MantissaLength(s) == 0;
  }

  /** PHP's boolean conversion of a string: only "" and "0" are false. */
  predicate Truthy(s: string)
  {
    s != "" && s != "0"
  }
}

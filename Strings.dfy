// The string rewrites the loaders apply to single cells: Python's str.strip(),
// str.replace(), str.lower() and `in`, and the character class filter
// re.sub(r'[^\d.,]', '', s).
module Strings {

  /** Python's str.isspace() for one character: the characters str.strip()
      with no argument removes, and the ones float() and int() ignore
      around a number. */
  predicate IsSpace(c: char) {
    ('\t' <= c <= '\r') || ('\U{1C}' <= c <= ' ') || c == '\U{85}' || c == '\U{A0}'
    || c == '\U{1680}' || ('\U{2000}' <= c <= '\U{200A}') || c == '\U{2028}' || c == '\U{2029}'
    || c == '\U{202F}' || c == '\U{205F}' || c == '\U{3000}'
  }

  /** An ASCII decimal digit. */
  predicate IsDigit(c: char) { '0' <= c <= '9' }

  ghost predicate AllSpace(s: string) {
    forall i :: 0 <= i < |s| ==> IsSpace(s[i])
  }

  /** `r` is `s` with whitespace removed from both ends: an infix of `s`
      whose surroundings are whitespace and whose ends are not. */
  ghost predicate StrippedOf(s: string, r: string) {
    (r == [] || (!IsSpace(r[0]) && !IsSpace(r[|r| - 1])))
    && exists a :: InfixAt(s, r, a) && AllSpace(s[..a]) && AllSpace(s[a + |r|..])
  }

  /** `p` occurs in `s` starting at position `i`. */
  ghost predicate InfixAt(s: string, p: string, i: int) {
    0 <= i <= |s| - |p| && s[i..i + |p|] == p
  }

  /** str.lstrip() */
  function TrimStart(s: string): (r: string)
    ensures |r| <= |s| && r == s[|s| - |r|..]
    ensures AllSpace(s[..|s| - |r|])
    ensures r == [] || !IsSpace(r[0])
  {
    if s != [] && IsSpace(s[0]) then
      var r := TrimStart(s[1..]);
      SpaceBefore(s, r);
      r
    else s
  }

  /** str.rstrip() */
  function TrimEnd(s: string): (r: string)
    ensures |r| <= |s| && r == s[..|r|]
    ensures AllSpace(s[|r|..])
    ensures r == [] || !IsSpace(r[|r| - 1])
  {
    if s != [] && IsSpace(s[|s| - 1]) then
      var r := TrimEnd(s[..|s| - 1]);
      SpaceAfter(s, r);
      r
    else s
  }

  /** A space in front of a suffix preceded by spaces. */
  lemma SpaceBefore(s: string, r: string)
    requires s != [] && IsSpace(s[0])
    requires |r| < |s| && r == s[1..][|s| - 1 - |r|..] && AllSpace(s[1..][..|s| - 1 - |r|])
    ensures r == s[|s| - |r|..] && AllSpace(s[..|s| - |r|])
  {
    var t := s[1..];
    assert s[..|s| - |r|] == [s[0]] + t[..|t| - |r|] && s[|s| - |r|..] == t[|t| - |r|..];
  }

  /** A space behind a prefix followed by spaces. */
  lemma SpaceAfter(s: string, r: string)
    requires s != [] && IsSpace(s[|s| - 1])
    requires |r| < |s| && r == s[..|s| - 1][..|r|] && AllSpace(s[..|s| - 1][|r|..])
    ensures r == s[..|r|] && AllSpace(s[|r|..])
  {
    var t := s[..|s| - 1];
    assert s[..|r|] == t[..|r|] && s[|r|..] == t[|r|..] + [s[|s| - 1]];
  }

  /** str.strip() */
  function Strip(s: string): (r: string)
    ensures StrippedOf(s, r)
  {
    var t := TrimStart(s);
    var r := TrimEnd(t);
    StrippedParts(s, t, r);
    r
  }

  /** Whitespace cut from the front of `s` leaving `t`, then from the back
      of `t` leaving `r`, leaves `r` stripped of `s`. */
  lemma StrippedParts(s: string, t: string, r: string)
    requires |t| <= |s| && t == s[|s| - |t|..] && AllSpace(s[..|s| - |t|])
    requires t == [] || !IsSpace(t[0])
    requires |r| <= |t| && r == t[..|r|] && AllSpace(t[|r|..])
    requires r == [] || !IsSpace(r[|r| - 1])
    ensures StrippedOf(s, r)
  {
    var a := |s| - |t|;
    assert r != [] ==> r[0] == t[0];
    assert s[a..a + |r|] == r;
    assert s[a + |r|..] == t[|r|..];
    assert InfixAt(s, r, a);
  }

  /** Text without whitespace at either end is left as it is. */
  lemma StripUnchanged(s: string)
    requires s == [] || (!IsSpace(s[0]) && !IsSpace(s[|s| - 1]))
    ensures Strip(s) == s
  {
    assert TrimStart(s) == s;
    assert TrimEnd(s) == s;
  }

  /** Stripping is idempotent. */
  lemma StripIdempotent(s: string)
    ensures Strip(Strip(s)) == Strip(s)
  {
    var r := Strip(s);
    if r != [] {
      assert TrimStart(r) == r;
      assert TrimEnd(r) == r;
    }
  }

  /** A character that is not whitespace survives stripping. */
  lemma StripKeeps(s: string, i: int)
    requires 0 <= i < |s| && !IsSpace(s[i])
    ensures s[i] in Strip(s)
  {
    var t := TrimStart(s);
    var a := |s| - |t|;
    if i < a {
      assert false;
    } else {
      assert t[i - a] == s[i];
      var r := TrimEnd(t);
      if i - a >= |r| {
        assert false;
      } else {
        assert r[i - a] == s[i];
      }
    }
  }

  /** A character between two non-space characters survives stripping. */
  lemma StripKeepsInner(s: string, i: int, j: int, k: int)
    requires 0 <= j < i < k < |s| && !IsSpace(s[j]) && !IsSpace(s[k])
    ensures s[i] in Strip(s)
  {
    var t := TrimStart(s);
    var a := |s| - |t|;
    assert forall x :: 0 <= x < a ==> IsSpace(s[x]) by {
      forall x | 0 <= x < a ensures IsSpace(s[x]) { assert s[..a][x] == s[x]; }
    }
    assert t[i - a] == s[i] && t[k - a] == s[k];
    var r := TrimEnd(t);
    assert forall x :: |r| <= x < |t| ==> IsSpace(t[x]) by {
      forall x | |r| <= x < |t| ensures IsSpace(t[x]) { assert t[|r|..][x - |r|] == t[x]; }
    }
    assert r[i - a] == s[i];
  }

  lemma {:induction false} TrimStartSpaces(a: string, t: string)
    requires AllSpace(a) && t != [] && !IsSpace(t[0])
    ensures TrimStart(a + t) == t
  {
    if a != [] {
      assert (a + t)[1..] == a[1..] + t;
      TrimStartSpaces(a[1..], t);
    } else {
      assert a + t == t;
    }
  }

  lemma {:induction false} TrimEndSpaces(t: string, b: string)
    requires AllSpace(b) && t != [] && !IsSpace(t[|t| - 1])
    ensures TrimEnd(t + b) == t
  {
    if b != [] {
      assert (t + b)[..|t + b| - 1] == t + b[..|b| - 1];
      TrimEndSpaces(t, b[..|b| - 1]);
    } else {
      assert t + b == t;
    }
  }

  /** Whitespace around a word is exactly what stripping removes. */
  lemma StripPadded(a: string, m: string, b: string)
    requires AllSpace(a) && AllSpace(b)
    requires m != [] && !IsSpace(m[0]) && !IsSpace(m[|m| - 1])
    ensures Strip(a + m + b) == m
  {
    assert a + m + b == a + (m + b);
    TrimStartSpaces(a, m + b);
    TrimEndSpaces(m, b);
  }

  /** Every character of the stripped text comes from the original. */
  lemma StripFrom(s: string, c: char)
    requires c in Strip(s)
    ensures c in s
  {
    var r := Strip(s);
    var a :| InfixAt(s, r, a) && AllSpace(s[..a]) && AllSpace(s[a + |r|..]);
    InfixKeeps(s, r, a, c);
  }

  /** A character of an infix is a character of the whole. */
  lemma InfixKeeps(s: string, r: string, a: int, c: char)
    requires InfixAt(s, r, a) && c in r
    ensures c in s
  {
    var k :| 0 <= k < |r| && r[k] == c;
    assert s[a..a + |r|][k] == s[a + k];
  }

  /** The characters of `s` for which `keep` holds, in order: str.replace(c, '')
      for one character, and a negated character class of re.sub. */
  function Filter(s: string, keep: char -> bool): (r: string)
    ensures |r| <= |s|
    ensures forall i :: 0 <= i < |r| ==> keep(r[i]) && r[i] in s
    ensures forall i :: 0 <= i < |s| && keep(s[i]) ==> s[i] in r
  {
    if s == [] then []
    else
      var rest := Filter(s[1..], keep);
      assert forall i :: 1 <= i < |s| ==> s[i] == s[1..][i - 1];
      if keep(s[0]) then [s[0]] + rest else rest
  }

  /** s.replace(c, '') */
  function Remove(s: string, c: char): (r: string)
    ensures c !in r
    ensures forall d :: d != c ==> (d in r <==> d in s)
  {
    Filter(s, d => d != c)
  }

  /** Filtering keeps a string whose every character is kept as it is. */
  lemma {:induction false} FilterAll(s: string, keep: char -> bool)
    requires forall i :: 0 <= i < |s| ==> keep(s[i])
    ensures Filter(s, keep) == s
  {
    if s != [] {
      FilterAll(s[1..], keep);
    }
  }

  /** Removing a character that does not occur changes nothing; in
      particular removing twice is removing once. */
  lemma RemoveAbsent(s: string, c: char)
    requires c !in s
    ensures Remove(s, c) == s
  {
    FilterAll(s, d => d != c);
  }

  /** Filtering a string that starts with `c`: `c` is kept when `keep`
      accepts it, and the rest is filtered alone. */
  lemma FilterCons(c: char, r: string, keep: char -> bool)
    ensures Filter([c] + r, keep) == if keep(c) then [c] + Filter(r, keep) else Filter(r, keep)
  {
    assert ([c] + r)[0] == c && ([c] + r)[1..] == r;
  }

  /** Removing a character from a string that starts with `c`: `c` is
      kept unless it is the one removed, and the rest is removed from alone. */
  lemma RemoveCons(c: char, r: string, x: char)
    ensures Remove([c] + r, x) == if c != x then [c] + Remove(r, x) else Remove(r, x)
  {
    assert ([c] + r)[0] == c && ([c] + r)[1..] == r;
  }

  /** s.replace(x, y) for single characters: same length, every `x` becomes `y`. */
  function Replace(s: string, x: char, y: char): (r: string)
    ensures |r| == |s|
    ensures forall i :: 0 <= i < |s| ==> r[i] == (if s[i] == x then y else s[i])
  {
    if s == [] then [] else [if s[0] == x then y else s[0]] + Replace(s[1..], x, y)
  }

  /** str.lower() on the Latin and Cyrillic capitals; other characters are
      left as they are. */
  function LowerChar(c: char): char {
    if 'A' <= c <= 'Z' then (c as int + 32) as char
    else if 'А' <= c <= 'Я' then (c as int + 32) as char
    else if 'Ѐ' <= c <= 'Џ' then (c as int + 80) as char
    else c
  }

  function Lower(s: string): (r: string)
    ensures |r| == |s|
    ensures forall i :: 0 <= i < |s| ==> r[i] == LowerChar(s[i])
  {
    if s == [] then [] else [LowerChar(s[0])] + Lower(s[1..])
  }

  /** Python's `p in s` for strings: `p` occurs somewhere in `s`. */
  function Contains(s: string, p: string): (b: bool)
    ensures b <==> exists i :: InfixAt(s, p, i)
  {
    if |p| > |s| then false
    else if s[..|p|] == p then assert InfixAt(s, p, 0); true
    else ContainsTail(s, p); Contains(s[1..], p)
  }

  lemma ContainsTail(s: string, p: string)
    requires |p| <= |s| && s[..|p|] != p
    ensures (exists i :: InfixAt(s, p, i)) <==> (exists i :: InfixAt(s[1..], p, i))
  {
    forall i | InfixAt(s[1..], p, i) ensures InfixAt(s, p, i + 1) {
      assert s[i + 1..i + 1 + |p|] == s[1..][i..i + |p|];
    }
    forall i | InfixAt(s, p, i) ensures InfixAt(s[1..], p, i - 1) {
      assert i != 0;
      forall x | 0 <= x < |p| ensures s[1..][i - 1..i - 1 + |p|][x] == p[x] {
        assert s[i..i + |p|][x] == s[i + x];
      }
    }
  }
}

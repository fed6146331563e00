/**
 * Room codes and the normalisation join-room applies to a typed code:
 * upper-case, then trim whitespace at both ends.
 */
module RoomCodes {
  /** The alphabet generated codes are drawn from: A to Z and 0 to 9. */
  predicate IsCodeChar(c: char) {
    'A' <= c <= 'Z' || '0' <= c <= '9'
  }

  /** Generated codes have six characters. */
  const RoomCodeLength: nat := 6

  predicate IsRoomCode(c: string) {
    |c| == RoomCodeLength && forall i :: 0 <= i < |c| ==> IsCodeChar(c[i])
  }

  /**
   * The whitespace trim removes: the white space and line terminator
   * characters of the ECMAScript language (tab, line tabulation, form feed,
   * space, no-break space, the byte order mark, the space separators, line
   * feed, carriage return, line and paragraph separators).
   */
  predicate IsSpace(c: char) {
    || c == '\t' || c == '\n' || c == '\U{000B}' || c == '\U{000C}' || c == '\r' || c == ' '
    || c == '\U{00A0}' || c == '\U{1680}' || ('\U{2000}' <= c <= '\U{200A}')
    || c == '\U{2028}' || c == '\U{2029}' || c == '\U{202F}' || c == '\U{205F}' || c == '\U{3000}'
    || c == '\U{FEFF}'
  }

  predicate AllSpace(s: string) {
    forall i :: 0 <= i < |s| ==> IsSpace(s[i])
  }

  /**
   * The upper-case form of one character, restricted to the characters whose
   * upper-case form is made of ASCII letters: a to z, dotless i, long s,
   * sharp s and the Latin ligatures ff, fi, fl, ffi, ffl and st. Every other
   * character is kept.
   */
  function UpperChar(c: char): (r: string)
    ensures 1 <= |r| <= 3
  {
    if 'a' <= c <= 'z' then [(c as int - 32) as char]
    else if c == '\U{0131}' then "I"
    else if c == '\U{017F}' then "S"
    else if c == '\U{00DF}' then "SS"
    else if c == '\U{FB00}' then "FF"
    else if c == '\U{FB01}' then "FI"
    else if c == '\U{FB02}' then "FL"
    else if c == '\U{FB03}' then "FFI"
    else if c == '\U{FB04}' then "FFL"
    else if c == '\U{FB05}' || c == '\U{FB06}' then "ST"
    else [c]
  }

  function ToUpper(s: string): string {
    if s == [] then [] else UpperChar(s[0]) + ToUpper(s[1..])
  }

  function TrimStart(s: string): (r: string)
    ensures |r| <= |s| && r == s[|s| - |r|..]
    ensures r == [] || !IsSpace(r[0])
    ensures AllSpace(s[..|s| - |r|])
  {
    if s == [] || !IsSpace(s[0]) then s
    else
      var r := TrimStart(s[1..]);
      assert s[1..][..|s| - 1 - |r|] == s[1..|s| - |r|];
      r
  }

  function TrimEnd(s: string): (r: string)
    ensures |r| <= |s| && r == s[..|r|]
    ensures r == [] || !IsSpace(r[|r| - 1])
    ensures AllSpace(s[|r|..])
  {
    if s == [] || !IsSpace(s[|s| - 1]) then s
    else
      var r := TrimEnd(s[..|s| - 1]);
      assert s[..|s| - 1][|r|..] == s[|r|..|s| - 1];
      r
  }

  function Trim(s: string): string {
    TrimEnd(TrimStart(s))
  }

  /** The key join-room looks a typed code up under. */
  function NormalizeCode(typed: string): string {
    Trim(ToUpper(typed))
  }

  /** Characters of the code alphabet are upper-case already and are not whitespace. */
  lemma AlphabetChar(c: char)
    requires IsCodeChar(c)
    ensures UpperChar(c) == [c] && !IsSpace(c)
  {
  }

  /** Upper-casing works character by character. */
  lemma {:induction false} ToUpperAppend(a: string, b: string)
    ensures ToUpper(a + b) == ToUpper(a) + ToUpper(b)
  {
    if a == [] {
      assert a + b == b;
    } else {
      assert (a + b)[0] == a[0] && (a + b)[1..] == a[1..] + b;
      ToUpperAppend(a[1..], b);
    }
  }

  /** Whitespace is left as it is by upper-casing. */
  lemma {:induction false} ToUpperSpace(s: string)
    requires AllSpace(s)
    ensures ToUpper(s) == s
  {
    if s != [] {
      ToUpperSpace(s[1..]);
    }
  }

  /** A room code is its own upper-case form. */
  lemma {:induction false} ToUpperCode(s: string)
    requires forall i :: 0 <= i < |s| ==> IsCodeChar(s[i])
    ensures ToUpper(s) == s
  {
    if s != [] {
      AlphabetChar(s[0]);
      ToUpperCode(s[1..]);
    }
  }

  /** Trimming removes exactly the whitespace around a string that neither starts nor ends with whitespace. */
  lemma {:induction false} TrimStartPadded(l: string, m: string)
    requires AllSpace(l) && (m == [] || !IsSpace(m[0]))
    ensures TrimStart(l + m) == m
  {
    if l != [] {
      assert (l + m)[1..] == l[1..] + m;
      TrimStartPadded(l[1..], m);
    }
  }

  lemma {:induction false} TrimEndPadded(m: string, r: string)
    requires AllSpace(r) && (m == [] || !IsSpace(m[|m| - 1]))
    ensures TrimEnd(m + r) == m
  {
    if r != [] {
      assert (m + r)[..|m + r| - 1] == m + r[..|r| - 1];
      TrimEndPadded(m, r[..|r| - 1]);
    }
  }

  /**
   * A code typed with any whitespace around it, in any letter case that
   * upper-cases to it, is looked up under the code itself.
   */
  lemma TypedCodeNormalizes(l: string, typed: string, r: string, c: string)
    requires IsRoomCode(c) && ToUpper(typed) == c && AllSpace(l) && AllSpace(r)
    ensures NormalizeCode(l + typed + r) == c
  {
    UpperPadded(l, typed, r);
    AlphabetChar(c[0]);
    AlphabetChar(c[|c| - 1]);
    TrimPadded(l, c, r);
  }

  lemma UpperPadded(l: string, typed: string, r: string)
    requires AllSpace(l) && AllSpace(r)
    ensures ToUpper(l + typed + r) == l + (ToUpper(typed) + r)
  {
    var a, u := l + typed, ToUpper(typed);
    ToUpperAppend(a, r);
    ToUpperAppend(l, typed);
    ToUpperSpace(l);
    ToUpperSpace(r);
    assert ToUpper(a) == l + u;
    Associative(l, u, r);
  }

  lemma Associative(a: string, b: string, c: string)
    ensures (a + b) + c == a + (b + c)
  {
  }

  lemma TrimPadded(l: string, m: string, r: string)
    requires AllSpace(l) && AllSpace(r) && m != [] && !IsSpace(m[0]) && !IsSpace(m[|m| - 1])
    ensures Trim(l + (m + r)) == m
  {
    assert (m + r)[0] == m[0];
    TrimStartPadded(l, m + r);
    TrimEndPadded(m, r);
  }

  /** In particular a room code typed exactly as shown is found under itself. */
  lemma RoomCodeNormalizes(c: string)
    requires IsRoomCode(c)
    ensures NormalizeCode(c) == c
  {
    ToUpperCode(c);
    AlphabetChar(c[0]);
    AlphabetChar(c[|c| - 1]);
    assert TrimStart(c) == c;
    assert TrimEnd(c) == c;
  }

  /** The lower-case ASCII form of a string. */
  function ToLowerAscii(s: string): (r: string)
    ensures |r| == |s|
  {
    if s == [] then [] else [if 'A' <= s[0] <= 'Z' then (s[0] as int + 32) as char else s[0]] + ToLowerAscii(s[1..])
  }

  /** A room code typed in lower case is upper-cased back to itself. */
  lemma {:induction false} LowerCaseCode(c: string)
    requires forall i :: 0 <= i < |c| ==> IsCodeChar(c[i])
    ensures ToUpper(ToLowerAscii(c)) == c
  {
    if c != [] {
      LowerCaseCode(c[1..]);
    }
  }
}

/**
 * The JavaScript string operations the client relies on: `trim`, `includes`,
 * `toLowerCase` and `slice`, on strings as sequences of characters.
 */
module Strings {

  /** The characters `String.prototype.trim` removes: ECMAScript's WhiteSpace
      (tab, vertical tab, form feed, the Zs space separators, the byte order mark)
      and LineTerminator code points. */
  predicate IsWhitespace(c: char) {
    || c == '\t' || c == '\U{000B}' || c == '\U{000C}' || c == ' '
    || c == '\n' || c == '\r' || c == '\U{2028}' || c == '\U{2029}'
    || c == '\U{00A0}' || c == '\U{FEFF}' || c == '\U{1680}'
    || ('\U{2000}' <= c <= '\U{200A}')
    || c == '\U{202F}' || c == '\U{205F}' || c == '\U{3000}'
  }

  /** No whitespace at either end of `s`. */
  predicate Trimmed(s: string) {
    s == [] || (!IsWhitespace(s[0]) && !IsWhitespace(s[|s| - 1]))
  }

  /** The number of whitespace characters `s` starts with. */
  function LeadingWhitespace(s: string): (k: nat)
    ensures k <= |s|
    ensures forall j :: 0 <= j < k ==> IsWhitespace(s[j])
    ensures k < |s| ==> !IsWhitespace(s[k])
  {
    if |s| > 0 && IsWhitespace(s[0]) then 1 + LeadingWhitespace(s[1..]) else 0
  }

  /** The number of whitespace characters `s` ends with. */
  function TrailingWhitespace(s: string): (k: nat)
    ensures k <= |s|
    ensures forall j :: |s| - k <= j < |s| ==> IsWhitespace(s[j])
    ensures k < |s| ==> !IsWhitespace(s[|s| - 1 - k])
  {
    if |s| > 0 && IsWhitespace(s[|s| - 1]) then 1 + TrailingWhitespace(s[..|s| - 1]) else 0
  }

  /** `s.trim()`: the part of `s` that starts after its leading whitespace,
      with whitespace only on either side of it, and no whitespace at its ends. */
  function Trim(s: string): (r: string)
    ensures Trimmed(r)
    ensures LeadingWhitespace(s) + |r| <= |s|
    ensures r == s[LeadingWhitespace(s)..LeadingWhitespace(s) + |r|]
    ensures forall j :: 0 <= j < |s| && !(LeadingWhitespace(s) <= j < LeadingWhitespace(s) + |r|) ==> IsWhitespace(s[j])
    ensures Trimmed(s) ==> r == s
  {
    var lead := LeadingWhitespace(s);
    var rest := s[lead..];
    var trail := TrailingWhitespace(rest);
    assert lead < |s| ==> rest[0] == s[lead];
    rest[..|rest| - trail]
  }

  /** `s` starts with a character that is not whitespace. */
  predicate StartsVisible(s: string) {
    s != [] && !IsWhitespace(s[0])
  }

  /** Trimming keeps the first character of a string that starts visibly. */
  lemma TrimVisible(s: string)
    requires StartsVisible(s)
    ensures Trim(s) != [] && Trim(s)[0] == s[0]
  {
    assert LeadingWhitespace(s) == 0;
  }

  /** Trimming once removes all surrounding whitespace. */
  lemma TrimIdempotent(s: string)
    ensures Trim(Trim(s)) == Trim(s)
  {
  }

  /** `c.toLowerCase()` for the ASCII letters. */
  function LowerChar(c: char): (l: char)
    ensures 'A' <= c <= 'Z' ==> 'a' <= l <= 'z'
    ensures !('A' <= c <= 'Z') ==> l == c
  {
    if 'A' <= c <= 'Z' then (c as int - 'A' as int + 'a' as int) as char else c
  }

  /** `s.toLowerCase()`, character by character. */
  function ToLower(s: string): (r: string)
    ensures |r| == |s|
    ensures forall j :: 0 <= j < |s| ==> r[j] == LowerChar(s[j])
  {
    seq(|s|, j requires 0 <= j < |s| => LowerChar(s[j]))
  }

  /** `sub` occurs in `s` starting at index `i`. */
  predicate OccursAt(s: string, sub: string, i: int) {
    0 <= i && i + |sub| <= |s| && s[i..i + |sub|] == sub
  }

  /** `s.includes(sub)`: try each starting position from the left. */
  function Includes(s: string, sub: string): (r: bool)
    ensures sub == [] ==> r
    ensures r ==> |sub| <= |s|
    decreases |s|
  {
    if |sub| <= |s| && s[..|sub|] == sub then true
    else if s == [] then false
    else Includes(s[1..], sub)
  }

  /** `Includes` holds exactly when `sub` occurs at some position of `s`. */
  lemma {:induction false} IncludesIff(s: string, sub: string)
    ensures Includes(s, sub) <==> exists i :: OccursAt(s, sub, i)
    decreases |s|
  {
    if |sub| <= |s| && s[..|sub|] == sub {
      assert OccursAt(s, sub, 0);
    } else if s == [] {
    } else {
      IncludesIff(s[1..], sub);
      if exists i :: OccursAt(s, sub, i) {
        var i :| OccursAt(s, sub, i);
        assert i != 0;
        assert s[1..][i - 1..i - 1 + |sub|] == s[i..i + |sub|];
        assert OccursAt(s[1..], sub, i - 1);
      }
      if exists i :: OccursAt(s[1..], sub, i) {
        var i :| OccursAt(s[1..], sub, i);
        assert s[i + 1..i + 1 + |sub|] == s[1..][i..i + |sub|];
        assert OccursAt(s, sub, i + 1);
      }
    }
  }

  /** A string is included in anything that ends with it. */
  lemma IncludesSuffix(before: string, sub: string)
    ensures Includes(before + sub, sub)
  {
    var s := before + sub;
    assert s[|before|..|before| + |sub|] == sub;
    assert OccursAt(s, sub, |before|);
    IncludesIff(s, sub);
  }

  /** Appending text keeps whatever was included. */
  lemma IncludesExtend(s: string, after: string, sub: string)
    requires Includes(s, sub)
    ensures Includes(s + after, sub)
  {
    IncludesIff(s, sub);
    var i :| OccursAt(s, sub, i);
    assert (s + after)[i..i + |sub|] == s[i..i + |sub|];
    assert OccursAt(s + after, sub, i);
    IncludesIff(s + after, sub);
  }

  /** Lower-casing commutes with taking a slice. */
  lemma ToLowerSlice(s: string, i: nat, j: nat)
    requires i <= j <= |s|
    ensures ToLower(s)[i..j] == ToLower(s[i..j])
  {
  }

  /** The case-insensitive test `s.toLowerCase().includes(w)` for a lower-case
      word `w` succeeds whenever some slice of `s` lower-cases to `w`. */
  lemma IncludesAnyCase(s: string, w: string, i: nat)
    requires i + |w| <= |s| && ToLower(s[i..i + |w|]) == w
    ensures Includes(ToLower(s), w)
  {
    ToLowerSlice(s, i, i + |w|);
    assert OccursAt(ToLower(s), w, i);
    IncludesIff(ToLower(s), w);
  }

  function Min(a: int, b: int): int {
    if a <= b then a else b
  }

  /** `s.slice(0, n)`: the first `n` characters, or all of `s` when it is shorter. */
  function Take(s: string, n: nat): (r: string)
    ensures |r| == Min(|s|, n)
    ensures r <= s
  {
    s[..Min(|s|, n)]
  }
}

/** The string primitives the two components rely on: the JavaScript
    whitespace class (shared by the regular-expression class `\s` and by
    `String.prototype.trim`), ASCII lowercasing, `includes`, `trim`, and the
    country pattern `^[a-zA-Z\s]*$`. */
module Text {

  /** The character class `[a-zA-Z]`. */
  predicate IsAsciiLetter(c: char) {
    ('a' <= c <= 'z') || ('A' <= c <= 'Z')
  }

  /** ECMAScript WhiteSpace and LineTerminator code points: the set matched
      by `\s` and stripped by `trim`. */
  predicate IsWhitespace(c: char) {
    var n := c as int;
    n == 0x09 || n == 0x0A || n == 0x0B || n == 0x0C || n == 0x0D || n == 0x20
    || n == 0xA0 || n == 0x1680 || (0x2000 <= n <= 0x200A)
    || n == 0x2028 || n == 0x2029 || n == 0x202F || n == 0x205F
    || n == 0x3000 || n == 0xFEFF
  }

  /** One character of the class `[a-zA-Z\s]`. */
  predicate IsCountryChar(c: char) {
    IsAsciiLetter(c) || IsWhitespace(c)
  }

  /** ASCII lowercasing of a single character. */
  function LowerChar(c: char): (r: char)
    ensures 'A' <= c <= 'Z' ==> 'a' <= r <= 'z' && r as int == c as int + 32
    ensures !('A' <= c <= 'Z') ==> r == c
    ensures !('A' <= r <= 'Z')
  {
    if 'A' <= c <= 'Z' then (c as int + 32) as char else c
  }

  /** `toLowerCase`, restricted to the ASCII letters. */
  function Lower(s: string): (r: string)
    ensures |r| == |s|
    ensures forall i :: 0 <= i < |s| ==> r[i] == LowerChar(s[i])
  {
    seq(|s|, i requires 0 <= i < |s| => LowerChar(s[i]))
  }

  /** Lowercasing an already lowercased string changes nothing, so a search
      term typed in any mix of cases selects the same records. */
  lemma LowerIdempotent(s: string)
    ensures Lower(Lower(s)) == Lower(s)
  {
    var l := Lower(s);
    assert forall i :: 0 <= i < |l| ==> LowerChar(l[i]) == l[i];
  }

  predicate IsPrefix(n: string, h: string) {
    |n| <= |h| && h[..|n|] == n
  }

  /** `h.includes(n)`, scanning left to right. */
  predicate Contains(h: string, n: string)
    decreases |h|
  {
    IsPrefix(n, h) || (|h| > 0 && Contains(h[1..], n))
  }

  /** `n` occurs in `h` starting at index `i`. */
  predicate OccursAt(h: string, n: string, i: int) {
    0 <= i && i + |n| <= |h| && h[i..i + |n|] == n
  }

  /** The scanning definition of `includes` agrees with the textbook one:
      some window of `h` equals `n`. */
  lemma {:induction false} ContainsIffOccurs(h: string, n: string)
    ensures Contains(h, n) <==> exists i :: OccursAt(h, n, i)
    decreases |h|
  {
    if Contains(h, n) {
      if IsPrefix(n, h) {
        assert OccursAt(h, n, 0);
      } else {
        ContainsIffOccurs(h[1..], n);
        var i :| OccursAt(h[1..], n, i);
        assert h[1..][i..i + |n|] == h[i + 1..i + 1 + |n|];
        assert OccursAt(h, n, i + 1);
      }
    }
    if exists i :: OccursAt(h, n, i) {
      var i :| OccursAt(h, n, i);
      if i == 0 {
        assert IsPrefix(n, h);
      } else {
        assert h[1..][i - 1..i - 1 + |n|] == h[i..i + |n|];
        assert OccursAt(h[1..], n, i - 1);
        ContainsIffOccurs(h[1..], n);
      }
    }
  }

  /** Every string includes the empty string. */
  lemma ContainsEmpty(h: string)
    ensures Contains(h, [])
  {
    assert IsPrefix([], h);
  }

  /** `trimStart`: drops the leading whitespace and nothing else. */
  function TrimStart(s: string): (r: string)
    ensures |r| <= |s| && r == s[|s| - |r|..]
    ensures r == [] || !IsWhitespace(r[0])
    ensures forall i :: 0 <= i < |s| - |r| ==> IsWhitespace(s[i])
  {
    if |s| > 0 && IsWhitespace(s[0]) then TrimStart(s[1..]) else s
  }

  /** `trimEnd`: drops the trailing whitespace and nothing else. */
  function TrimEnd(s: string): (r: string)
    ensures |r| <= |s| && r == s[..|r|]
    ensures r == [] || !IsWhitespace(r[|r| - 1])
    ensures forall i :: |r| <= i < |s| ==> IsWhitespace(s[i])
  {
    if |s| > 0 && IsWhitespace(s[|s| - 1]) then TrimEnd(s[..|s| - 1]) else s
  }

  /** `trim`. */
  function Trim(s: string): (r: string)
  {
    TrimEnd(TrimStart(s))
  }

  /** `s.trim() !== ""`: the string has a character outside the whitespace
      class. */
  function HasContent(s: string): (b: bool)
    ensures b <==> exists i :: 0 <= i < |s| && !IsWhitespace(s[i])
  {
    var t := TrimStart(s);
    assert forall i :: 0 <= i < |t| ==> t[i] == s[|s| - |t| + i];
    Trim(s) != []
  }

  /** `/^[a-zA-Z\s]*$/.test(s)`, as the star of a one-character class
      consumed from the left. */
  function MatchesCountryPattern(s: string): (b: bool)
    ensures b <==> forall i :: 0 <= i < |s| ==> IsCountryChar(s[i])
  {
    if |s| == 0 then true
    else IsCountryChar(s[0]) && MatchesCountryPattern(s[1..])
  }
}

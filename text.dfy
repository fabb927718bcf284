/**
  String helpers the catalogue filter relies on, modelled on the JavaScript
  built-ins it calls: `String.prototype.trim`, an ASCII-only stand-in for
  `String.prototype.toLowerCase`, and `String.prototype.includes`.
 */
module Text {

  /** The characters `trim` strips: ECMAScript WhiteSpace and LineTerminator. */
  predicate IsWhitespace(c: char) {
    c in WhitespaceChars || '\U{2000}' <= c <= '\U{200A}'
  }

  /** Tab, LF, VT, FF, CR, space, NBSP, U+1680, U+2028, U+2029, U+202F, U+205F, U+3000, BOM. */
  const WhitespaceChars: set<char> := {
    '\t', '\n', '\U{000B}', '\U{000C}', '\r', ' ', '\U{00A0}', '\U{1680}',
    '\U{2028}', '\U{2029}', '\U{202F}', '\U{205F}', '\U{3000}', '\U{FEFF}'
  }

  predicate AllWhitespace(s: string) {
    forall i :: 0 <= i < |s| ==> IsWhitespace(s[i])
  }

  /** The length of the whitespace run that starts `s`. */
  function LeadingSpace(s: string): (k: nat)
    ensures k <= |s|
    ensures forall i :: 0 <= i < k ==> IsWhitespace(s[i])
    ensures k < |s| ==> !IsWhitespace(s[k])
  {
    if |s| > 0 && IsWhitespace(s[0]) then
      var k := LeadingSpace(s[1..]);
      assert forall i :: 1 <= i < k + 1 ==> s[i] == s[1..][i - 1];
      k + 1
    else
      0
  }

  /** The length of the whitespace run that ends `s`. */
  function TrailingSpace(s: string): (k: nat)
    ensures k <= |s|
    ensures forall i :: |s| - k <= i < |s| ==> IsWhitespace(s[i])
    ensures k < |s| ==> !IsWhitespace(s[|s| - k - 1])
  {
    if |s| > 0 && IsWhitespace(s[|s| - 1]) then
      var k := TrailingSpace(s[..|s| - 1]);
      assert forall i :: |s| - 1 - k <= i < |s| - 1 ==> s[i] == s[..|s| - 1][i];
      k + 1
    else
      0
  }

  /**
    `trim()`: the query with its leading and trailing whitespace runs removed.
    It is empty exactly when every character is whitespace.
   */
  function Trim(s: string): (r: string)
    ensures LeadingSpace(s) + |r| <= |s|
    ensures r == s[LeadingSpace(s)..LeadingSpace(s) + |r|]
    ensures AllWhitespace(s[LeadingSpace(s) + |r|..])
    ensures r == [] <==> AllWhitespace(s)
    ensures r != [] ==> !IsWhitespace(r[0]) && !IsWhitespace(r[|r| - 1])
  {
    var a := LeadingSpace(s);
    var t := s[a..];
    var r := t[..|t| - TrailingSpace(t)];
    assert r != [] ==> r[0] == s[a];
    r
  }

  /** `toLowerCase()` restricted to ASCII: 'A'..'Z' map to 'a'..'z'. */
  function LowerChar(c: char): char {
    if 'A' <= c <= 'Z' then (c as int + 32) as char else c
  }

  predicate IsUpperAscii(c: char) {
    'A' <= c <= 'Z'
  }

  function ToLower(s: string): (r: string)
    ensures |r| == |s|
    ensures forall i :: 0 <= i < |s| ==> r[i] == LowerChar(s[i])
    ensures forall i :: 0 <= i < |r| ==> !IsUpperAscii(r[i])
  {
    if s == [] then [] else [LowerChar(s[0])] + ToLower(s[1..])
  }

  /** Lower-casing an already lower-cased string changes nothing. */
  lemma ToLowerIdempotent(s: string)
    ensures ToLower(ToLower(s)) == ToLower(s)
  {
  }

  /** Lower-casing neither creates nor removes whitespace, so it keeps a query blank or non-blank. */
  lemma LowerKeepsBlank(s: string)
    ensures AllWhitespace(ToLower(s)) <==> AllWhitespace(s)
  {
  }

  /** `needle` occurs in `hay` starting at index `i`. */
  predicate OccursAt(hay: string, needle: string, i: int) {
    0 <= i && i + |needle| <= |hay| && hay[i..i + |needle|] == needle
  }

  /** `hay.includes(needle)`: some position of `hay` starts an occurrence of `needle`. */
  function Includes(hay: string, needle: string): (b: bool)
    ensures b <==> exists i :: OccursAt(hay, needle, i)
    decreases |hay|
  {
    if needle <= hay then
      assert OccursAt(hay, needle, 0);
      true
    else if |hay| <= |needle| then
      false
    else
      var b := Includes(hay[1..], needle);
      if b then
        var i :| OccursAt(hay[1..], needle, i);
        assert OccursAt(hay, needle, i + 1) by {
          assert hay[1..][i..i + |needle|] == hay[i + 1..i + 1 + |needle|];
        }
        b
      else
        assert forall i :: OccursAt(hay, needle, i) ==> i == 0 || OccursAt(hay[1..], needle, i - 1) by {
          forall i | OccursAt(hay, needle, i) && i != 0 ensures OccursAt(hay[1..], needle, i - 1) {
            assert hay[1..][i - 1..i - 1 + |needle|] == hay[i..i + |needle|];
          }
        }
        b
  }
}

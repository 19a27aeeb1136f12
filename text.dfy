/** String operations the services use for case-insensitive matching:
    `String.prototype.toLowerCase` restricted to ASCII and `String.prototype.includes`. */
module Text {

  predicate IsUpper(c: char) {
    'A' <= c <= 'Z'
  }

  /** ASCII lower-casing of one character. */
  function LowerChar(c: char): (d: char)
    ensures !IsUpper(d)
    ensures IsUpper(c) ==> d as int - c as int == 'a' as int - 'A' as int
    ensures !IsUpper(c) ==> d == c
  {
    if IsUpper(c) then (c as int + ('a' as int - 'A' as int)) as char else c
  }

  /** `s.toLowerCase()` for ASCII text: every character lower-cased, nothing else changed. */
  function Lower(s: string): (r: string)
    ensures |r| == |s|
    ensures forall i :: 0 <= i < |s| ==> r[i] == LowerChar(s[i])
  {
    if s == [] then [] else [LowerChar(s[0])] + Lower(s[1..])
  }

  /** Lower-casing twice is lower-casing once. */
  lemma LowerIdempotent(s: string)
    ensures Lower(Lower(s)) == Lower(s)
  {
    assert forall i :: 0 <= i < |s| ==> Lower(Lower(s))[i] == Lower(s)[i];
  }

  /** q occurs in s starting at position i. */
  ghost predicate OccursAt(s: string, q: string, i: int) {
    0 <= i && i + |q| <= |s| && s[i..i + |q|] == q
  }

  ghost predicate HasSubstring(s: string, q: string) {
    exists i :: OccursAt(s, q, i)
  }

  /** `s.includes(q)`: scans the start positions of s from left to right. */
  function Includes(s: string, q: string): (b: bool)
    ensures b <==> HasSubstring(s, q)
  {
    if q <= s then
      assert OccursAt(s, q, 0);
      true
    else if s == [] then
      false
    else
      var b := Includes(s[1..], q);
      assert b ==> HasSubstring(s, q) by {
        if b {
          var i :| OccursAt(s[1..], q, i);
          assert s[1..][i..i + |q|] == s[i + 1..i + 1 + |q|];
          assert OccursAt(s, q, i + 1);
        }
      }
      assert HasSubstring(s, q) ==> b by {
        if HasSubstring(s, q) {
          var i :| OccursAt(s, q, i);
          assert i != 0;
          assert s[1..][i - 1..i - 1 + |q|] == s[i..i + |q|];
          assert OccursAt(s[1..], q, i - 1);
        }
      }
      b
  }

  /** The case-insensitive substring test both services' searches apply to one field. */
  predicate ContainsIgnoringCase(field: string, query: string) {
    Includes(Lower(field), Lower(query))
  }

  /** The empty query occurs in every field. */
  lemma {:induction false} EmptyQueryMatches(field: string)
    ensures ContainsIgnoringCase(field, "")
  {
    assert OccursAt(Lower(field), Lower(""), 0);
  }

  /** The query's own case does not matter. */
  lemma QueryCaseIrrelevant(field: string, query: string)
    ensures ContainsIgnoringCase(field, query) == ContainsIgnoringCase(field, Lower(query))
  {
    LowerIdempotent(query);
  }
}

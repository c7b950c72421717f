/** The two string operations the inspector's filter relies on:
    `string.ToLower()` restricted to ASCII letters, and the ordinal
    `string.Contains(string)`. */
module Text {

  function LowerChar(c: char): char {
    if 'A' <= c <= 'Z' then (c as int + 32) as char else c
  }

  /** Lower-case every ASCII capital; every other character is kept. */
  function ToLower(s: string): (r: string)
    ensures |r| == |s|
    ensures forall i :: 0 <= i < |s| ==> r[i] == LowerChar(s[i])
  {
    if |s| == 0 then [] else [LowerChar(s[0])] + ToLower(s[1..])
  }

  /** `sub` occurs in `s` starting at position `i`. */
  predicate OccursAt(s: string, sub: string, i: int) {
    0 <= i && i + |sub| <= |s| && s[i..i + |sub|] == sub
  }

  /** `sub` occurs somewhere in `s`. */
  ghost predicate Occurs(s: string, sub: string) {
    exists i :: OccursAt(s, sub, i)
  }

  /** Ordinal substring search, scanning `s` from the front. */
  function Contains(s: string, sub: string): (r: bool)
    ensures r <==> Occurs(s, sub)
    decreases |s|
  {
    if |sub| <= |s| && s[..|sub|] == sub then
      assert OccursAt(s, sub, 0);
      true
    else if |s| == 0 then
      false
    else
      var found := Contains(s[1..], sub);
      ShiftOccurrence(s, sub);
      found
  }

  /** An occurrence past the first character of `s` is an occurrence in
      `s[1..]`, one position earlier. */
  lemma ShiftOccurrence(s: string, sub: string)
    requires |s| > 0
    requires !OccursAt(s, sub, 0)
    ensures Occurs(s, sub) <==> Occurs(s[1..], sub)
  {
    forall i | OccursAt(s, sub, i) ensures OccursAt(s[1..], sub, i - 1) {
      assert s[1..][i - 1..i - 1 + |sub|] == s[i..i + |sub|];
    }
    forall i | OccursAt(s[1..], sub, i) ensures OccursAt(s, sub, i + 1) {
      assert s[1..][i..i + |sub|] == s[i + 1..i + 1 + |sub|];
    }
  }

  /** Lowering twice is lowering once. */
  lemma ToLowerIdempotent(s: string)
    ensures ToLower(ToLower(s)) == ToLower(s)
  {
  }

  /** Every string contains the empty string. */
  lemma ContainsEmpty(s: string)
    ensures Contains(s, [])
  {
    assert OccursAt(s, [], 0);
  }
}

/** Case-insensitive substring matching, the meaning of an ORM `icontains`
    filter. Case folding is modelled on ASCII letters only. */
module Text {

  function LowerChar(c: char): (d: char)
    ensures 'A' <= c <= 'Z' ==> d as int == c as int + 32
    ensures !('A' <= c <= 'Z') ==> d == c
  {
    if 'A' <= c <= 'Z' then (c as int + 32) as char else c
  }

  function Lower(s: string): (t: string)
    ensures |t| == |s|
    ensures forall i :: 0 <= i < |s| ==> t[i] == LowerChar(s[i])
  {
    seq(|s|, i requires 0 <= i < |s| => LowerChar(s[i]))
  }

  /** `needle` occurs in `hay` starting at position `i`. */
  predicate OccursAt(needle: string, hay: string, i: int)
  {
    0 <= i <= |hay| - |needle| && hay[i..i + |needle|] == needle
  }

  /** `needle` occurs in `hay` at some position. */
  predicate IsSubstring(needle: string, hay: string)
  {
    exists i | 0 <= i <= |hay| :: OccursAt(needle, hay, i)
  }

  /** `hay` contains `needle`, ignoring case. */
  predicate IContains(hay: string, needle: string)
  {
    IsSubstring(Lower(needle), Lower(hay))
  }

  /** Every string contains itself, whatever the case of either copy. */
  lemma IContainsSelf(s: string)
    ensures IContains(s, s)
  {
    var t := Lower(s);
    assert t[0..|t|] == t;
    assert OccursAt(t, t, 0);
  }

  /** Matching ignores the case of the search term: a term and its lower-case
      form find the same strings. */
  lemma IContainsCaseInsensitive(hay: string, needle: string)
    ensures IContains(hay, Lower(needle)) <==> IContains(hay, needle)
  {
    LowerIdempotent(needle);
  }

  lemma LowerIdempotent(s: string)
    ensures Lower(Lower(s)) == Lower(s)
  {
  }
}

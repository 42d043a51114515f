/**
 * Case-insensitive substring matching, the `icontains` lookup of the listing.
 * Case folding covers the ASCII letters only.
 */
module Text {

  function LowerChar(c: char): char {
    if 'A' <= c <= 'Z' then (c as int - 'A' as int + 'a' as int) as char else c
  }

  function Lower(s: string): string {
    seq(|s|, i requires 0 <= i < |s| => LowerChar(s[i]))
  }

  predicate IsPrefix(p: string, s: string) {
    |p| <= |s| && s[..|p|] == p
  }

  /** needle occurs somewhere in hay, as a contiguous run. */
  predicate OccursAt(hay: string, needle: string, i: int) {
    0 <= i && i + |needle| <= |hay| && hay[i..i + |needle|] == needle
  }

  /** Substring test by scanning hay from the left. */
  function Contains(hay: string, needle: string): (r: bool)
    ensures r <==> exists i :: OccursAt(hay, needle, i)
    decreases |hay|
  {
    if IsPrefix(needle, hay) then
      assert OccursAt(hay, needle, 0);
      true
    else if hay == [] then
      assert forall i :: !OccursAt(hay, needle, i);
      false
    else
      var r := Contains(hay[1..], needle);
      assert forall i :: OccursAt(hay[1..], needle, i) ==> OccursAt(hay, needle, i + 1);
      assert forall i :: OccursAt(hay, needle, i) && i > 0 ==> OccursAt(hay[1..], needle, i - 1);
      r
  }

  /** `field__icontains=value`: value occurs in field, ignoring letter case. */
  predicate ContainsIgnoreCase(field: string, value: string) {
    Contains(Lower(field), Lower(value))
  }

  /** Folding is idempotent, so matching ignores the case of the query value. */
  lemma ContainsIgnoresQueryCase(field: string, value: string)
    ensures ContainsIgnoreCase(field, value) == ContainsIgnoreCase(field, Lower(value))
  {
    assert Lower(Lower(value)) == Lower(value);
  }
}

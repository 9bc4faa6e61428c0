/** Substring search, as the store's `LIKE '%pattern%'` query evaluates it. The
    comparison is taken to be case-sensitive and character by character. */
module Text {

  /** `pattern` occurs in `s` starting at index `i`. */
  predicate OccursAt(s: string, pattern: string, i: int)
  {
    0 <= i && i + |pattern| <= |s| && s[i..i + |pattern|] == pattern
  }

  /** `s` contains `pattern` as a contiguous substring. */
  predicate Contains(s: string, pattern: string)
  {
    exists i :: 0 <= i <= |s| && OccursAt(s, pattern, i)
  }

  /** Every string contains the empty pattern. */
  lemma ContainsEmpty(s: string)
    ensures Contains(s, [])
  {
    assert OccursAt(s, [], 0);
  }

  /** A string contains itself, and so does any string it is part of. */
  lemma ContainsInfix(prefix: string, middle: string, suffix: string)
    ensures Contains(prefix + middle + suffix, middle)
  {
    var s := prefix + middle + suffix;
    assert s[|prefix|..|prefix| + |middle|] == middle;
    assert OccursAt(s, middle, |prefix|);
  }

  /** A one-character pattern occurs exactly where that character does. */
  lemma ContainsChar(s: string, c: char)
    ensures Contains(s, [c]) <==> c in s
  {
    if c in s {
      var i :| 0 <= i < |s| && s[i] == c;
      assert s[i..i + 1] == [c];
      assert OccursAt(s, [c], i);
    }
    if Contains(s, [c]) {
      var i :| 0 <= i <= |s| && OccursAt(s, [c], i);
      assert s[i..i + 1][0] == s[i];
    }
  }
}

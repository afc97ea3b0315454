/** Where one text occurs inside another: the vocabulary shared by the replace and the mail bodies. */
module Substrings {

  /** `pat` occurs in `s` starting at index `i`. */
  ghost predicate OccursAt(s: string, pat: string, i: int) {
    0 <= i && i + |pat| <= |s| && s[i..i + |pat|] == pat
  }

  /** `pat` occurs somewhere in `s`. */
  ghost predicate Occurs(s: string, pat: string) {
    exists i :: OccursAt(s, pat, i)
  }

  /** Whatever surrounds it, a text occurs in the concatenation. */
  lemma {:induction false} OccursInMiddle(a: string, m: string, b: string)
    ensures Occurs(a + m + b, m)
  {
    assert (a + m + b)[|a|..|a| + |m|] == m;
    assert OccursAt(a + m + b, m, |a|);
  }

  /** An occurrence in `t` past index 0 is an occurrence in `t[1..]`, and conversely. */
  lemma {:induction false} OccursAtTail(t: string, pat: string, k: int)
    requires |t| > 0 && k >= 1
    ensures OccursAt(t, pat, k) <==> OccursAt(t[1..], pat, k - 1)
  {
    if k + |pat| <= |t| {
      assert t[k..k + |pat|] == t[1..][k - 1..k - 1 + |pat|];
    }
  }

  /** An occurrence in `t` at or past index `d` is an occurrence in `t[d..]`, and conversely. */
  lemma {:induction false} OccursAtDrop(t: string, pat: string, d: nat, k: int)
    requires d <= |t| && k >= d
    ensures OccursAt(t, pat, k) <==> OccursAt(t[d..], pat, k - d)
  {
    if k + |pat| <= |t| {
      assert t[k..k + |pat|] == t[d..][k - d..k - d + |pat|];
    }
  }

  /** A text holding a character that `s` lacks does not occur in `s`. */
  lemma {:induction false} AbsentByCharacter(s: string, pat: string, k: int)
    requires 0 <= k < |pat| && pat[k] !in s
    ensures !Occurs(s, pat)
  {
    forall i | 0 <= i && i + |pat| <= |s| ensures !OccursAt(s, pat, i) {
      assert s[i..i + |pat|][k] == s[i + k];
    }
  }
}

/** The substring test the relay uses to pick out authorize lines
    (Go's `strings.Contains`), stated against an explicit occurrence index. */
module Strings {

  /** `p` occurs in `s` starting at position `i`. */
  predicate OccursAt(s: string, p: string, i: nat) {
    i + |p| <= |s| && s[i..i + |p|] == p
  }

  /** `p` is a prefix of `s`. */
  predicate HasPrefix(s: string, p: string) {
    |p| <= |s| && s[..|p|] == p
  }

  /** An occurrence at position `i + 1` of `s` is an occurrence at `i` of `s[1..]`. */
  lemma OccursAtTail(s: string, p: string, i: nat)
    requires |s| > 0
    ensures OccursAt(s, p, i + 1) <==> OccursAt(s[1..], p, i)
  {
  }

  /** Substring test by scanning: true exactly when `p` occurs somewhere in `s`
      (the empty pattern occurs everywhere). */
  function Contains(s: string, p: string): (b: bool)
    ensures b <==> exists i: nat :: OccursAt(s, p, i)
    decreases |s|
  {
    if HasPrefix(s, p) then
      assert OccursAt(s, p, 0);
      true
    else if |s| == 0 then
      false
    else
      var rest := Contains(s[1..], p);
      assert rest <==> exists i: nat :: OccursAt(s, p, i) by {
        forall i: nat ensures OccursAt(s, p, i + 1) <==> OccursAt(s[1..], p, i) {
          OccursAtTail(s, p, i);
        }
        if !rest {
          forall i: nat ensures !OccursAt(s, p, i) {
            if i > 0 {
              assert !OccursAt(s[1..], p, i - 1);
            }
          }
        } else {
          var j: nat :| OccursAt(s[1..], p, j);
          assert OccursAt(s, p, j + 1);
        }
      }
      rest
  }

  /** Whatever surrounds it, a string built around `p` contains `p`. */
  lemma ContainsEmbedded(pre: string, p: string, post: string)
    ensures Contains(pre + p + post, p)
  {
    var s := pre + p + post;
    assert s[|pre|..|pre| + |p|] == p;
    assert OccursAt(s, p, |pre|);
  }
}

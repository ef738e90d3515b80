/**
 * Case-insensitive, unanchored substring matching: the meaning the composite
 * query gives to `{ $regex: pattern, $options: "i" }` when the pattern is read
 * as a literal string. Case folding is ASCII only.
 */
module Text {

  /** ASCII case folding: 'A'..'Z' become 'a'..'z'; every other character is kept. */
  function Fold(c: char): char {
    if 'A' <= c <= 'Z' then (c as int - 'A' as int + 'a' as int) as char else c
  }

  /** `a` and `b` have the same length and agree character by character up to case. */
  predicate EqualFold(a: string, b: string) {
    |a| == |b| && forall i :: 0 <= i < |a| ==> Fold(a[i]) == Fold(b[i])
  }

  /** `s` starts with `p`, up to case. */
  predicate StartsWithFold(s: string, p: string) {
    |p| <= |s| && EqualFold(s[..|p|], p)
  }

  /** The matcher: try `p` at each start position of `s` in turn. */
  predicate ContainsFold(s: string, p: string)
    decreases |s|
  {
    StartsWithFold(s, p) || (|s| > 0 && ContainsFold(s[1..], p))
  }

  /** The reference meaning: `p` occurs, up to case, at some position of `s`. */
  ghost predicate OccursAt(s: string, p: string, i: int) {
    0 <= i && i + |p| <= |s| && EqualFold(s[i..i + |p|], p)
  }

  ghost predicate Occurs(s: string, p: string) {
    exists i :: OccursAt(s, p, i)
  }

  /** The matcher accepts exactly when the pattern occurs somewhere, up to case. */
  lemma ContainsFoldIffOccurs(s: string, p: string)
    ensures ContainsFold(s, p) <==> Occurs(s, p)
  {
    if ContainsFold(s, p) {
      ContainsFoldOccurs(s, p);
    }
    if Occurs(s, p) {
      var i :| OccursAt(s, p, i);
      OccursAtContainsFold(s, p, i);
    }
  }

  /** Soundness of the matcher: when it accepts, the pattern occurs. */
  lemma {:induction false} ContainsFoldOccurs(s: string, p: string)
    requires ContainsFold(s, p)
    ensures Occurs(s, p)
    decreases |s|
  {
    if StartsWithFold(s, p) {
      assert s[0..|p|] == s[..|p|];
      assert OccursAt(s, p, 0);
    } else {
      assert |s| > 0 && ContainsFold(s[1..], p);
      ContainsFoldOccurs(s[1..], p);
      var t := s[1..];
      var i :| OccursAt(t, p, i);
      assert i + 1 + |p| <= |s|;
      assert t[i..i + |p|] == s[i + 1..i + 1 + |p|];
      assert OccursAt(s, p, i + 1);
    }
  }

  /** Completeness of the matcher: an occurrence at `i` is found. */
  lemma {:induction false} OccursAtContainsFold(s: string, p: string, i: int)
    requires OccursAt(s, p, i)
    ensures ContainsFold(s, p)
    decreases i
  {
    if i == 0 {
      assert s[0..|p|] == s[..|p|];
    } else {
      assert s[1..][i - 1..i - 1 + |p|] == s[i..i + |p|];
      OccursAtContainsFold(s[1..], p, i - 1);
    }
  }

  /** The empty pattern (the query's default) matches every string. */
  lemma {:induction false} EmptyPatternMatchesAll(s: string)
    ensures ContainsFold(s, "")
  {
    assert StartsWithFold(s, "");
  }

  /** A pattern that occurs in `s` still occurs after `s` is extended on either side. */
  lemma {:induction false} OccursInContext(pre: string, s: string, post: string, p: string)
    requires Occurs(s, p)
    ensures Occurs(pre + s + post, p)
  {
    var i :| OccursAt(s, p, i);
    assert (pre + s + post)[|pre| + i..|pre| + i + |p|] == s[i..i + |p|];
    assert OccursAt(pre + s + post, p, |pre| + i);
  }

  /** The matcher ignores case: "Italian" matches the pattern "ital". */
  lemma ItalianMatchesItal()
    ensures ContainsFold("Italian", "ital")
  {
    assert "Italian"[..4] == "Ital";
    assert EqualFold("Ital", "ital");
  }
}

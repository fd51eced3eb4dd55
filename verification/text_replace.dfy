/**
  Python's `str.replace(old, new)` with no count: every non-overlapping
  occurrence of the pattern, scanned from the left, is replaced.
 */
module TextReplace {

  /** The pattern `pat` occurs in `s` starting at index `i`. */
  ghost predicate OccursAt(s: string, pat: string, i: int) {
    0 <= i && i + |pat| <= |s| && s[i..i + |pat|] == pat
  }

  /** The pattern `pat` occurs somewhere in `s`. */
  ghost predicate Occurs(s: string, pat: string) {
    exists i :: OccursAt(s, pat, i)
  }

  /**
    Replaces every occurrence of `pat` in `s` by `rep`, left to right. An empty
    pattern matches before every character and at the end, as in Python
    (`"ab".replace("", "X") == "XaXbX"`).
   */
  function ReplaceAll(s: string, pat: string, rep: string): (r: string)
    ensures |pat| == 0 ==> |r| == |s| + (|s| + 1) * |rep|
    ensures |pat| > 0 && |rep| <= |pat| ==> |r| <= |s|
    ensures |pat| > 0 && |pat| <= |rep| ==> |s| <= |r|
    decreases |s|
  {
    if |pat| == 0 then
      if |s| == 0 then rep else rep + [s[0]] + ReplaceAll(s[1..], pat, rep)
    else if |s| == 0 then s
    else if pat <= s then rep + ReplaceAll(s[|pat|..], pat, rep)
    else [s[0]] + ReplaceAll(s[1..], pat, rep)
  }

  /** An occurrence in a suffix of `s` is an occurrence in `s`, shifted. */
  lemma OccursInSuffix(s: string, k: nat, pat: string, i: int)
    requires k <= |s|
    ensures OccursAt(s[k..], pat, i) ==> OccursAt(s, pat, i + k)
  {
  }

  /** A window lying wholly in the right part of a concatenation is a window of that part. */
  lemma SliceOfConcat(a: string, b: string, i: int, n: nat)
    requires |a| <= i && i + n <= |a| + |b|
    ensures (a + b)[i..i + n] == b[i - |a|..i - |a| + n]
  {
  }

  /** A string without the (non-empty) pattern is left unchanged. */
  lemma {:induction false} ReplaceAllWithoutMatch(s: string, pat: string, rep: string)
    requires |pat| > 0
    ensures !Occurs(s, pat) ==> ReplaceAll(s, pat, rep) == s
    decreases |s|
  {
    if |s| == 0 {
    } else if pat <= s {
      assert OccursAt(s, pat, 0);
    } else {
      ReplaceAllWithoutMatch(s[1..], pat, rep);
      forall i | OccursAt(s[1..], pat, i)
        ensures OccursAt(s, pat, i + 1)
      {
        OccursInSuffix(s, 1, pat, i);
      }
    }
  }

  /**
    As long as the output has not reached the first character of a
    replacement, output and input agree: if the first `k` characters of the
    result do not contain `rep[0]`, they are the first `k` characters of `s`.
   */
  lemma {:induction false} ReplaceAllKeepsPrefix(s: string, pat: string, rep: string, k: nat)
    requires |pat| > 0 && |rep| > 0
    ensures k <= |ReplaceAll(s, pat, rep)| && rep[0] !in ReplaceAll(s, pat, rep)[..k]
            ==> k <= |s| && ReplaceAll(s, pat, rep)[..k] == s[..k]
    decreases |s|
  {
    var r := ReplaceAll(s, pat, rep);
    if k == 0 || |s| == 0 {
    } else if pat <= s {
      assert r[0] == rep[0];
    } else {
      ReplaceAllKeepsPrefix(s[1..], pat, rep, k - 1);
      var t := ReplaceAll(s[1..], pat, rep);
      assert r == [s[0]] + t;
      if k <= |r| && rep[0] !in r[..k] {
        assert t[..k - 1] == r[..k][1..];
        assert s[..k] == [s[0]] + s[1..][..k - 1];
      }
    }
  }
}

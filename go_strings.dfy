/**
  The three functions of Go's `strings` package that wpress.go calls:
  `HasSuffix` (through `TrimSuffix`), `TrimSuffix` and `Contains`.
  Strings are sequences of characters; Go works on bytes, and every
  character used by these functions is a single ASCII byte.
 */
module GoStrings {

  /** `strings.HasSuffix(s, suffix)`: s ends with suffix. */
  predicate HasSuffix(s: string, suffix: string) {
    |suffix| <= |s| && s[|s| - |suffix|..] == suffix
  }

  /** `strings.TrimSuffix(s, suffix)`: s without the trailing suffix, or s
      itself when it does not end with suffix. */
  function TrimSuffix(s: string, suffix: string): (r: string)
    ensures HasSuffix(s, suffix) ==> r + suffix == s
    ensures !HasSuffix(s, suffix) ==> r == s
  {
    if HasSuffix(s, suffix) then s[..|s| - |suffix|] else s
  }

  /** Appending a suffix and trimming it again gives back the original. */
  lemma TrimSuffixOfAppended(s: string, suffix: string)
    ensures HasSuffix(s + suffix, suffix)
    ensures TrimSuffix(s + suffix, suffix) == s
  {
    assert (s + suffix)[|s|..] == suffix;
    assert (s + suffix)[..|s|] == s;
  }

  /** sub occurs in s starting at index i. */
  predicate OccursAt(s: string, sub: string, i: nat) {
    i + |sub| <= |s| && s[i..i + |sub|] == sub
  }

  /** `strings.Contains(s, sub)`: sub is a substring of s. */
  predicate Contains(s: string, sub: string) {
    exists i: nat | i <= |s| :: OccursAt(s, sub, i)
  }

  lemma ContainsLeft(a: string, b: string, sub: string)
    requires Contains(a, sub)
    ensures Contains(a + b, sub)
  {
    var i: nat :| i <= |a| && OccursAt(a, sub, i);
    assert (a + b)[i..i + |sub|] == a[i..i + |sub|];
    assert OccursAt(a + b, sub, i);
  }

  lemma ContainsRight(a: string, b: string, sub: string)
    requires Contains(b, sub)
    ensures Contains(a + b, sub)
  {
    var i: nat :| i <= |b| && OccursAt(b, sub, i);
    assert (a + b)[|a| + i..|a| + i + |sub|] == b[i..i + |sub|];
    assert OccursAt(a + b, sub, |a| + i);
  }

  /** A substring free of '/' that occurs in `a/b` occurs in a or in b: it
      cannot straddle the separator. */
  lemma ContainsAcrossSeparator(a: string, b: string, sub: string)
    requires '/' !in sub
    requires Contains(a + "/" + b, sub)
    ensures Contains(a, sub) || Contains(b, sub)
  {
    var pre := a + "/";
    var s := pre + b;
    var i: nat :| i <= |s| && OccursAt(s, sub, i);
    assert s[|a|] == '/';
    assert forall j | i <= j < i + |sub| :: s[j] == sub[j - i] by {
      forall j | i <= j < i + |sub| ensures s[j] == sub[j - i] {
        assert s[i..i + |sub|][j - i] == s[j];
      }
    }
    if i + |sub| <= |a| {
      assert s[i..i + |sub|] == a[i..i + |sub|];
      assert OccursAt(a, sub, i);
    } else if i >= |pre| {
      assert s[i..i + |sub|] == b[i - |pre|..i - |pre| + |sub|];
      assert OccursAt(b, sub, i - |pre|);
    } else {
      assert false;
    }
  }

  /** A character of sub that s lacks rules out sub occurring in s. */
  lemma MissingCharacter(s: string, sub: string, c: char)
    requires c in sub && c !in s
    ensures !Contains(s, sub)
  {
    forall i: nat | i <= |s| ensures !OccursAt(s, sub, i) {
      if i + |sub| <= |s| {
        var k :| 0 <= k < |sub| && sub[k] == c;
        assert s[i..i + |sub|][k] == s[i + k];
      }
    }
  }

  /** A substring can be no longer than the string it occurs in. */
  lemma ContainsLength(s: string, sub: string)
    requires Contains(s, sub)
    ensures |sub| <= |s|
  {
  }
}

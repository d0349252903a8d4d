/** String operations the script takes from Python's `str`: `in`, `startswith`, `replace`, slicing. */
module Text {

  /** `p` occurs in `s` starting at index `i`. */
  predicate OccursAt(s: string, p: string, i: nat)
  {
    i + |p| <= |s| && s[i..i + |p|] == p
  }

  /** Python's `p in s` for strings: `p` is a substring of `s`. */
  predicate Contains(s: string, p: string)
  {
    exists i :: 0 <= i <= |s| - |p| && OccursAt(s, p, i)
  }

  /** Python's `s.startswith(p)`. */
  predicate StartsWith(s: string, p: string)
  {
    |p| <= |s| && s[..|p|] == p
  }

  function Min(a: int, b: int): int { if a <= b then a else b }

  /** Python's `s[:n]` for a non-negative `n`. */
  function Take(s: string, n: nat): (r: string)
    ensures |r| == Min(|s|, n)
    ensures StartsWith(s, r)
  {
    if |s| <= n then s else s[..n]
  }

  /**
   * Python's `s.replace(pat, rep)`: scan left to right and replace every
   * non-overlapping occurrence of `pat`.  Only non-empty `pat` is used.
   */
  function ReplaceAll(s: string, pat: string, rep: string): string
    requires pat != []
    decreases |s|
  {
    if |s| < |pat| then s
    else if s[..|pat|] == pat then rep + ReplaceAll(s[|pat|..], pat, rep)
    else [s[0]] + ReplaceAll(s[1..], pat, rep)
  }

  /** When `pat` does not occur in `s`, replacing leaves `s` alone. */
  lemma {:induction false} ReplaceAllAbsent(s: string, pat: string, rep: string)
    requires pat != []
    requires !Contains(s, pat)
    ensures ReplaceAll(s, pat, rep) == s
    decreases |s|
  {
    if |s| >= |pat| {
      assert !OccursAt(s, pat, 0);
      assert !Contains(s[1..], pat) by {
        forall i | 0 <= i <= |s[1..]| - |pat|
          ensures !OccursAt(s[1..], pat, i)
        {
          assert !OccursAt(s, pat, i + 1);
          assert s[1..][i..i + |pat|] == s[i + 1..i + 1 + |pat|];
        }
      }
      ReplaceAllAbsent(s[1..], pat, rep);
      assert [s[0]] + s[1..] == s;
    }
  }

  /** If the result of a replace starts with `p`, and `p` avoids the first char of `rep`, the input started with `p`. */
  lemma {:induction false} ReplaceAllKeepsPrefix(t: string, pat: string, rep: string, p: string)
    requires pat != [] && rep != []
    requires rep[0] !in p
    requires StartsWith(ReplaceAll(t, pat, rep), p)
    ensures StartsWith(t, p)
    decreases |p|
  {
    if p != [] && |t| >= |pat| {
      assert t[..|pat|] != pat by {
        assert ReplaceAll(t, pat, rep)[0] == p[0];
        assert p[0] != rep[0];
      }
      var rest := ReplaceAll(t[1..], pat, rep);
      assert ReplaceAll(t, pat, rep) == [t[0]] + rest;
      assert StartsWith(rest, p[1..]) by {
        assert rest[..|p| - 1] == ([t[0]] + rest)[1..|p|];
      }
      assert forall c :: c in p[1..] ==> c in p;
      ReplaceAllKeepsPrefix(t[1..], pat, rep, p[1..]);
      assert t[0] == p[0];
      assert t[1..][..|p| - 1] == p[1..];
      forall k | 0 <= k < |p|
        ensures t[k] == p[k]
      {
        if k > 0 {
          assert t[k] == t[1..][..|p| - 1][k - 1];
          assert p[k] == p[1..][k - 1];
        }
      }
      assert t[..|p|] == p;
    }
  }

  /**
   * When no char of `rep` can begin `pat` (rep[k] != pat[0]), and `pat[0]` is not the first
   * char of `rep` in its tail, replace-all removes every occurrence of `pat`.
   */
  lemma {:induction false} ReplaceAllRemovesAll(s: string, pat: string, rep: string)
    requires pat != [] && rep != []
    requires pat[0] !in rep
    requires rep[0] !in pat[1..]
    ensures !Contains(ReplaceAll(s, pat, rep), pat)
    decreases |s|
  {
    var r := ReplaceAll(s, pat, rep);
    if |s| < |pat| {
      assert r == s;
    } else if s[..|pat|] == pat {
      var rest := ReplaceAll(s[|pat|..], pat, rep);
      ReplaceAllRemovesAll(s[|pat|..], pat, rep);
      forall i | 0 <= i <= |r| - |pat|
        ensures !OccursAt(r, pat, i)
      {
        if i < |rep| {
          assert r[i] == rep[i];
          assert r[i] != pat[0];
          assert r[i..i + |pat|][0] == r[i];
        } else {
          assert r[i..i + |pat|] == rest[i - |rep|..i - |rep| + |pat|];
          assert !OccursAt(rest, pat, i - |rep|);
        }
      }
    } else {
      var rest := ReplaceAll(s[1..], pat, rep);
      ReplaceAllRemovesAll(s[1..], pat, rep);
      assert r == [s[0]] + rest;
      forall i | 0 <= i <= |r| - |pat|
        ensures !OccursAt(r, pat, i)
      {
        if i == 0 {
          assert s[..|pat|] == [s[0]] + s[1..][..|pat| - 1];
          if OccursAt(r, pat, 0) {
            assert rest[..|pat| - 1] == r[1..|pat|];
            assert StartsWith(rest, pat[1..]);
            ReplaceAllKeepsPrefix(s[1..], pat, rep, pat[1..]);
            assert false;
          }
        } else {
          assert r[i..i + |pat|] == rest[i - 1..i - 1 + |pat|];
          assert !OccursAt(rest, pat, i - 1);
        }
      }
    }
  }
}

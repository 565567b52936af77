/** Python's string operations that the feed code relies on: `in` between
    strings, `startswith`/`endswith`, and `str.replace`, which replaces every
    non-overlapping occurrence scanning from the left. */
module Text {

  /** `q` occurs in `s` at index `p`. */
  predicate OccursAt(s: string, q: string, p: nat)
  {
    p + |q| <= |s| && s[p..p + |q|] == q
  }

  /** Python's `q in s`. */
  predicate Contains(s: string, q: string)
  {
    exists p :: 0 <= p <= |s| - |q| && OccursAt(s, q, p)
  }

  predicate StartsWith(s: string, q: string)
  {
    |q| <= |s| && s[..|q|] == q
  }

  predicate EndsWith(s: string, q: string)
  {
    |q| <= |s| && s[|s| - |q|..] == q
  }

  /** No character of `a` occurs in `b`. */
  predicate Disjoint(a: string, b: string)
  {
    forall c :: c in a ==> c !in b
  }

  /** Python's `s.replace(pat, rep)` for a non-empty `pat`. */
  function ReplaceAll(s: string, pat: string, rep: string): (r: string)
    requires pat != []
    decreases |s|
  {
    if s == [] then []
    else if StartsWith(s, pat) then rep + ReplaceAll(s[|pat|..], pat, rep)
    else [s[0]] + ReplaceAll(s[1..], pat, rep)
  }

  /** A prefix that does not hold the pattern's first character is copied
      as it is: no occurrence can start inside it. */
  lemma {:induction false} ReplaceAllSkipsPrefix(x: string, y: string, pat: string, rep: string)
    requires pat != [] && pat[0] !in x
    ensures ReplaceAll(x + y, pat, rep) == x + ReplaceAll(y, pat, rep)
    decreases |x|
  {
    if x == [] {
      assert x + y == y;
    } else {
      assert (x + y)[0] == x[0];
      assert !StartsWith(x + y, pat);
      assert (x + y)[1..] == x[1..] + y;
      ReplaceAllSkipsPrefix(x[1..], y, pat, rep);
    }
  }

  /** An occurrence at the start is replaced, and the scan resumes after it. */
  lemma ReplaceAllAtStart(y: string, pat: string, rep: string)
    requires pat != []
    ensures ReplaceAll(pat + y, pat, rep) == rep + ReplaceAll(y, pat, rep)
  {
    assert (pat + y)[..|pat|] == pat;
    assert (pat + y)[|pat|..] == y;
  }

  /** A string without the pattern comes back unchanged. */
  lemma {:induction false} ReplaceAllIdentity(s: string, pat: string, rep: string)
    requires pat != [] && !Contains(s, pat)
    ensures ReplaceAll(s, pat, rep) == s
    decreases |s|
  {
    if s != [] {
      assert !OccursAt(s, pat, 0);
      forall p | 0 <= p <= |s[1..]| - |pat|
        ensures !OccursAt(s[1..], pat, p)
      {
        assert s[1..][p..p + |pat|] == s[p + 1..p + 1 + |pat|];
        assert !OccursAt(s, pat, p + 1);
      }
      ReplaceAllIdentity(s[1..], pat, rep);
    }
  }

  /** A prefix of the result made only of characters foreign to `rep` was
      copied from the input unchanged. */
  lemma {:induction false} CopiedPrefix(t: string, pat: string, rep: string, k: nat)
    requires pat != [] && rep != []
    requires k <= |ReplaceAll(t, pat, rep)|
    requires forall j :: 0 <= j < k ==> ReplaceAll(t, pat, rep)[j] !in rep
    ensures k <= |t| && t[..k] == ReplaceAll(t, pat, rep)[..k]
    decreases |t|
  {
    var r := ReplaceAll(t, pat, rep);
    if k > 0 {
      assert t != [];
      assert r[0] !in rep;
      assert !StartsWith(t, pat);
      var rest := ReplaceAll(t[1..], pat, rep);
      assert r == [t[0]] + rest;
      forall j | 0 <= j < k - 1
        ensures rest[j] !in rep
      {
        assert rest[j] == r[j + 1];
      }
      CopiedPrefix(t[1..], pat, rep, k - 1);
      assert t[..k] == [t[0]] + t[1..][..k - 1];
      assert r[..k] == [t[0]] + rest[..k - 1];
    }
  }

  /** If `q` occurs at the start of `[x] + ReplaceAll(t, …)` and its tail is
      foreign to `rep`, then it occurs at the start of `[x] + t`. */
  lemma StartCopied(x: char, t: string, pat: string, rep: string, q: string)
    requires pat != [] && rep != [] && q != [] && Disjoint(rep, q)
    requires OccursAt([x] + ReplaceAll(t, pat, rep), q, 0)
    ensures OccursAt([x] + t, q, 0)
  {
    var r := ReplaceAll(t, pat, rep);
    assert r[..|q| - 1] == q[1..];
    forall j | 0 <= j < |q| - 1
      ensures r[j] !in rep
    {
      assert r[j] == q[j + 1];
    }
    CopiedPrefix(t, pat, rep, |q| - 1);
    assert ([x] + t)[..|q|] == [x] + t[..|q| - 1];
  }

  /** Replacing by text that shares no character with the pattern leaves no
      occurrence of the pattern behind. */
  lemma {:induction false} ReplaceAllRemoves(s: string, pat: string, rep: string)
    requires pat != [] && rep != [] && Disjoint(rep, pat)
    ensures !Contains(ReplaceAll(s, pat, rep), pat)
    decreases |s|
  {
    var r := ReplaceAll(s, pat, rep);
    if s != [] {
      if StartsWith(s, pat) {
        var rest := ReplaceAll(s[|pat|..], pat, rep);
        ReplaceAllRemoves(s[|pat|..], pat, rep);
        assert r == rep + rest;
        forall p | 0 <= p <= |r| - |pat|
          ensures !OccursAt(r, pat, p)
        {
          if p < |rep| {
            assert r[p] == rep[p] && rep[p] in rep && r[p] in r[p..p + |pat|];
          } else {
            assert r[p..p + |pat|] == rest[p - |rep|..p - |rep| + |pat|];
            assert !OccursAt(rest, pat, p - |rep|);
          }
        }
      } else {
        var rest := ReplaceAll(s[1..], pat, rep);
        ReplaceAllRemoves(s[1..], pat, rep);
        assert r == [s[0]] + rest;
        assert s == [s[0]] + s[1..];
        forall p | 0 <= p <= |r| - |pat|
          ensures !OccursAt(r, pat, p)
        {
          if p == 0 {
            if OccursAt(r, pat, 0) {
              StartCopied(s[0], s[1..], pat, rep, pat);
              assert false;
            }
          } else {
            assert r[p..p + |pat|] == rest[p - 1..p - 1 + |pat|];
            assert !OccursAt(rest, pat, p - 1);
          }
        }
      }
    }
  }

  /** Replacing by text that shares no character with `q` cannot create an
      occurrence of `q`. */
  lemma {:induction false} ReplaceAllKeepsAbsent(s: string, pat: string, rep: string, q: string)
    requires pat != [] && rep != [] && q != [] && Disjoint(rep, q)
    requires !Contains(s, q)
    ensures !Contains(ReplaceAll(s, pat, rep), q)
    decreases |s|
  {
    var r := ReplaceAll(s, pat, rep);
    if s != [] {
      var n := if StartsWith(s, pat) then |pat| else 1;
      forall p | 0 <= p <= |s[n..]| - |q|
        ensures !OccursAt(s[n..], q, p)
      {
        assert s[n..][p..p + |q|] == s[p + n..p + n + |q|];
        assert !OccursAt(s, q, p + n);
      }
      var rest := ReplaceAll(s[n..], pat, rep);
      ReplaceAllKeepsAbsent(s[n..], pat, rep, q);
      if StartsWith(s, pat) {
        assert r == rep + rest;
        forall p | 0 <= p <= |r| - |q|
          ensures !OccursAt(r, q, p)
        {
          if p < |rep| {
            assert r[p] == rep[p] && rep[p] in rep && r[p] in r[p..p + |q|];
          } else {
            assert r[p..p + |q|] == rest[p - |rep|..p - |rep| + |q|];
            assert !OccursAt(rest, q, p - |rep|);
          }
        }
      } else {
        assert r == [s[0]] + rest;
        assert s == [s[0]] + s[1..];
        forall p | 0 <= p <= |r| - |q|
          ensures !OccursAt(r, q, p)
        {
          if p == 0 {
            if OccursAt(r, q, 0) {
              StartCopied(s[0], s[1..], pat, rep, q);
              assert false;
            }
          } else {
            assert r[p..p + |q|] == rest[p - 1..p - 1 + |q|];
            assert !OccursAt(rest, q, p - 1);
          }
        }
      }
    }
  }

  /** A suffix that does not hold the pattern's last character is untouched:
      no occurrence can reach into it. */
  lemma {:induction false} ReplaceAllKeepsSuffix(prefix: string, suffix: string, pat: string, rep: string)
    requires pat != [] && pat[|pat| - 1] !in suffix
    ensures ReplaceAll(prefix + suffix, pat, rep) == ReplaceAll(prefix, pat, rep) + suffix
    decreases |prefix|
  {
    var s := prefix + suffix;
    if prefix == [] {
      assert s == suffix;
      forall p | 0 <= p <= |suffix| - |pat|
        ensures !OccursAt(suffix, pat, p)
      {
        assert suffix[p + |pat| - 1] != pat[|pat| - 1];
      }
      ReplaceAllIdentity(suffix, pat, rep);
    } else if StartsWith(prefix, pat) {
      assert s[..|pat|] == prefix[..|pat|];
      assert s[|pat|..] == prefix[|pat|..] + suffix;
      ReplaceAllKeepsSuffix(prefix[|pat|..], suffix, pat, rep);
    } else {
      if |pat| <= |prefix| {
        assert s[..|pat|] == prefix[..|pat|];
      } else if |pat| <= |s| {
        assert s[|pat| - 1] in suffix;
      }
      assert !StartsWith(s, pat);
      assert s[1..] == prefix[1..] + suffix;
      ReplaceAllKeepsSuffix(prefix[1..], suffix, pat, rep);
    }
  }
}

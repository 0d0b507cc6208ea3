/** Shell-style pattern matching as Python's fnmatch.fnmatch does it for
    patterns without bracket classes: the pattern must match the WHOLE name,
    `*` matches any run of characters (newlines included), `?` exactly one
    character, and every other character only itself. */
module Glob {
  import opened Text

  function GlobMatch(p: string, s: string): bool
    decreases |p| + |s|
  {
    if p == [] then s == []
    else if p[0] == '*' then GlobMatch(p[1..], s) || (s != [] && GlobMatch(p, s[1..]))
    else s != [] && (p[0] == '?' || p[0] == s[0]) && GlobMatch(p[1..], s[1..])
  }

  /** p has no wildcard and no bracket: every character stands for itself,
      both here and in fnmatch, which reads `[` as the start of a class. */
  predicate Literal(p: string) {
    forall i :: 0 <= i < |p| ==> p[i] != '*' && p[i] != '?' && p[i] != '['
  }

  /** A pattern without wildcards matches exactly itself. */
  lemma {:induction false} GlobLiteral(p: string, s: string)
    requires Literal(p)
    ensures GlobMatch(p, s) <==> s == p
    decreases |p|
  {
    if p != [] && s != [] {
      GlobLiteral(p[1..], s[1..]);
      if GlobMatch(p, s) {
        assert s == [s[0]] + s[1..];
      }
    }
  }

  /** Every pattern matches its own text (a `*` or `?` matching itself). */
  lemma {:induction false} GlobSelf(p: string)
    ensures GlobMatch(p, p)
    decreases |p|
  {
    if p != [] {
      GlobSelf(p[1..]);
      if p[0] == '*' {
        assert GlobMatch(p[1..], p[1..]);
        assert GlobMatch(p, p[1..]);
      }
    }
  }

  /** A pattern without `*` only matches names of its own length. */
  lemma {:induction false} GlobFixedLength(p: string, s: string)
    requires forall i :: 0 <= i < |p| ==> p[i] != '*'
    requires GlobMatch(p, s)
    ensures |s| == |p|
    decreases |p|
  {
    if p != [] {
      GlobFixedLength(p[1..], s[1..]);
    }
  }

  /** Without `*`, matching is position by position: the name has the
      pattern's length and agrees with it wherever the pattern has no `?`. */
  lemma {:induction false} GlobNoStar(p: string, s: string)
    requires forall i :: 0 <= i < |p| ==> p[i] != '*'
    ensures GlobMatch(p, s) <==> |s| == |p| && forall i :: 0 <= i < |p| ==> p[i] == '?' || p[i] == s[i]
    decreases |p|
  {
    if p != [] && s != [] {
      GlobNoStar(p[1..], s[1..]);
      if |s| == |p| && forall i :: 0 <= i < |p| ==> p[i] == '?' || p[i] == s[i] {
        forall i | 0 <= i < |p| - 1
          ensures p[1..][i] == '?' || p[1..][i] == s[1..][i]
        {
          assert p[1..][i] == p[i + 1] && s[1..][i] == s[i + 1];
        }
      }
      if GlobMatch(p, s) {
        forall i | 1 <= i < |p|
          ensures p[i] == '?' || p[i] == s[i]
        {
          assert p[1..][i - 1] == p[i] && s[1..][i - 1] == s[i];
        }
      }
    }
  }

  /** A lone `*` matches every name. */
  lemma {:induction false} GlobStarAll(s: string)
    ensures GlobMatch("*", s)
    decreases |s|
  {
    assert "*"[1..] == [];
    if s != [] {
      GlobStarAll(s[1..]);
    }
  }

  /** A leading `*` lets the rest of the pattern match any suffix of the name. */
  lemma {:induction false} GlobLeadingStar(r: string, s: string)
    ensures GlobMatch(['*'] + r, s) <==> exists i :: 0 <= i <= |s| && GlobMatch(r, s[i..])
    decreases |s|
  {
    var p := ['*'] + r;
    assert p[1..] == r;
    assert s[0..] == s;
    if s != [] {
      GlobLeadingStar(r, s[1..]);
      if GlobMatch(p, s[1..]) {
        var j :| 0 <= j <= |s[1..]| && GlobMatch(r, s[1..][j..]);
        assert s[1..][j..] == s[j + 1..];
      }
      if exists i :: 0 <= i <= |s| && GlobMatch(r, s[i..]) {
        var i :| 0 <= i <= |s| && GlobMatch(r, s[i..]);
        if i > 0 {
          assert s[1..][i - 1..] == s[i..];
        }
      }
    }
  }

  /** A literal prefix of the pattern must be a prefix of the name, and the
      rest of the pattern must match the rest of the name. */
  lemma {:induction false} GlobLiteralPrefix(l: string, r: string, s: string)
    requires Literal(l)
    ensures GlobMatch(l + r, s) <==> |l| <= |s| && s[..|l|] == l && GlobMatch(r, s[|l|..])
    decreases |l|
  {
    if l == [] {
      assert l + r == r;
      assert s[0..] == s;
    } else {
      var p := l + r;
      assert p[0] == l[0] && p[0] != '*' && p[0] != '?';
      assert p[1..] == l[1..] + r;
      if s != [] {
        GlobLiteralPrefix(l[1..], r, s[1..]);
        assert GlobMatch(p, s) == (l[0] == s[0] && GlobMatch(l[1..] + r, s[1..]));
        if |l| <= |s| {
          var head, tail := s[..|l|], s[1..][..|l| - 1];
          assert s[1..][|l| - 1..] == s[|l|..];
          assert head == [s[0]] + tail;
          assert l == [l[0]] + l[1..];
          assert head == l <==> s[0] == l[0] && tail == l[1..] by {
            if head == l {
              assert head[0] == l[0] && head[1..] == l[1..];
            }
          }
        }
      }
    }
  }

  /** `*q*` with a literal q matches exactly the names that contain q: the
      wildcard search and the plain substring search agree on such queries. */
  lemma GlobSubstring(q: string, s: string)
    requires Literal(q)
    ensures GlobMatch(['*'] + q + ['*'], s) <==> IsSubstring(q, s)
  {
    assert ['*'] + q + ['*'] == ['*'] + (q + ['*']);
    GlobLeadingStar(q + ['*'], s);
    if GlobMatch(['*'] + (q + ['*']), s) {
      var i :| 0 <= i <= |s| && GlobMatch(q + ['*'], s[i..]);
      GlobLiteralPrefix(q, ['*'], s[i..]);
      assert s[i..][..|q|] == s[i..i + |q|];
      assert OccursAt(q, s, i);
    }
    if exists i :: OccursAt(q, s, i) {
      var i :| OccursAt(q, s, i);
      GlobLiteralPrefix(q, ['*'], s[i..]);
      assert s[i..][..|q|] == s[i..i + |q|];
      GlobStarAll(s[i..][|q|..]);
      assert GlobMatch(q + ['*'], s[i..]);
    }
  }
}

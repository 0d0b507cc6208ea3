/** String operations the case logger applies to widget and CSV values:
    Python's str.strip(), str.lower(), str(n) for a count, and the
    substring test `q in s`. */
module Text {

  /** The characters Python's str.isspace() accepts, which str.strip() removes. */
  predicate IsSpace(c: char) {
    c == ' ' || ('\t' <= c <= '\r') || ('\U{1c}' <= c <= '\U{1f}') ||
    c == '\U{85}' || c == '\U{a0}' || c == '\U{1680}' ||
    ('\U{2000}' <= c <= '\U{200a}') || c == '\U{2028}' || c == '\U{2029}' ||
    c == '\U{202f}' || c == '\U{205f}' || c == '\U{3000}'
  }

  /** s with its leading whitespace removed. */
  function TrimLeft(s: string): string {
    if s != [] && IsSpace(s[0]) then TrimLeft(s[1..]) else s
  }

  /** s with its trailing whitespace removed. */
  function TrimRight(s: string): string {
    if s != [] && IsSpace(s[|s| - 1]) then TrimRight(s[..|s| - 1]) else s
  }

  /** TrimLeft keeps a suffix, drops only spaces, and leaves no leading space. */
  lemma {:induction false} TrimLeftSpec(s: string)
    ensures |TrimLeft(s)| <= |s| && TrimLeft(s) == s[|s| - |TrimLeft(s)|..]
    ensures forall i :: 0 <= i < |s| - |TrimLeft(s)| ==> IsSpace(s[i])
    ensures TrimLeft(s) == [] || !IsSpace(TrimLeft(s)[0])
  {
    if s != [] && IsSpace(s[0]) {
      var r := s[1..];
      TrimLeftSpec(r);
      var t := TrimLeft(r);
      assert TrimLeft(s) == t;
      assert r[|r| - |t|..] == s[|s| - |t|..];
      forall i | 0 <= i < |s| - |t|
        ensures IsSpace(s[i])
      {
        if i > 0 {
          assert s[i] == r[i - 1];
        }
      }
    }
  }

  /** TrimRight keeps a prefix, drops only spaces, and leaves no trailing space. */
  lemma {:induction false} TrimRightSpec(s: string)
    ensures |TrimRight(s)| <= |s| && TrimRight(s) == s[..|TrimRight(s)|]
    ensures forall i :: |TrimRight(s)| <= i < |s| ==> IsSpace(s[i])
    ensures TrimRight(s) == [] || !IsSpace(TrimRight(s)[|TrimRight(s)| - 1])
  {
    if s != [] && IsSpace(s[|s| - 1]) {
      var r := s[..|s| - 1];
      TrimRightSpec(r);
      var t := TrimRight(r);
      assert TrimRight(s) == t;
      assert r[..|t|] == s[..|t|];
      forall i | |t| <= i < |s|
        ensures IsSpace(s[i])
      {
        if i < |r| {
          assert s[i] == r[i];
        }
      }
    }
  }

  /** Python's s.strip() with no argument. */
  function Trim(s: string): string {
    TrimRight(TrimLeft(s))
  }

  /** t is the slice of s starting at i, and everything outside it is a space. */
  predicate StrippedAt(s: string, t: string, i: int) {
    0 <= i && i + |t| <= |s| && t == s[i..i + |t|] &&
    (forall k :: 0 <= k < i ==> IsSpace(s[k])) &&
    (forall k :: i + |t| <= k < |s| ==> IsSpace(s[k]))
  }

  /** The result of Trim is a slice of s that neither starts nor ends with a
      space, and every character outside that slice is a space. */
  lemma TrimIsCore(s: string)
    ensures exists i :: StrippedAt(s, Trim(s), i)
    ensures Trim(s) == [] || (!IsSpace(Trim(s)[0]) && !IsSpace(Trim(s)[|Trim(s)| - 1]))
  {
    var l := TrimLeft(s);
    var i := |s| - |l|;
    var t := TrimRight(l);
    TrimLeftSpec(s);
    TrimRightSpec(l);
    assert t == s[i..i + |t|];
    assert forall k :: i + |t| <= k < |s| ==> IsSpace(s[k]) by {
      forall k | i + |t| <= k < |s| ensures IsSpace(s[k]) {
        assert s[k] == l[k - i];
      }
    }
    if t != [] {
      assert t[0] == l[0];
    }
    assert t == Trim(s);
    assert StrippedAt(s, Trim(s), i);
  }

  /** Stripping twice is stripping once. */
  lemma TrimIdempotent(s: string)
    ensures Trim(Trim(s)) == Trim(s)
  {
    var t := Trim(s);
    var l := TrimLeft(s);
    TrimLeftSpec(s);
    TrimRightSpec(l);
    if t != [] {
      assert t[0] == l[0];
    }
    assert TrimLeft(t) == t;
    assert TrimRight(t) == t;
  }

  /** Python's str.lower() restricted to ASCII letters. */
  function LowerChar(c: char): char {
    if 'A' <= c <= 'Z' then (c as int + 32) as char else c
  }

  function Lower(s: string): string {
    seq(|s|, i requires 0 <= i < |s| => LowerChar(s[i]))
  }

  /** The ASCII alphabet in both cases, letter by letter. */
  const CapitalLetters: string := "ABCDEFGHIJKLMNOPQRSTUVWXYZ"
  const SmallLetters: string := "abcdefghijklmnopqrstuvwxyz"

  /** The k-th letter of each table is the k-th code point after 'A' or 'a'. */
  lemma LetterTables()
    ensures |CapitalLetters| == 26 && |SmallLetters| == 26
    ensures forall k :: 0 <= k < 26 ==>
      CapitalLetters[k] as int == 'A' as int + k && SmallLetters[k] as int == 'a' as int + k
  {
  }

  /** Lower-casing turns each capital letter into its small letter, keeps
      every other character in place, and is idempotent. */
  lemma LowerSpec(s: string)
    ensures |Lower(s)| == |s|
    ensures forall i :: 0 <= i < |s| && 'A' <= s[i] <= 'Z' ==>
      Lower(s)[i] == SmallLetters[s[i] as int - 'A' as int]
    ensures forall i :: 0 <= i < |s| ==> !('A' <= Lower(s)[i] <= 'Z')
    ensures forall i :: 0 <= i < |s| && !('A' <= s[i] <= 'Z') ==> Lower(s)[i] == s[i]
    ensures Lower(Lower(s)) == Lower(s)
  {
    LetterTables();
  }

  /** a and b are the same character, or the capital and the small form of
      one letter. */
  predicate SameIgnoringCase(a: char, b: char) {
    a == b ||
    exists k :: 0 <= k < 26 &&
      ((a == CapitalLetters[k] && b == SmallLetters[k]) || (a == SmallLetters[k] && b == CapitalLetters[k]))
  }

  /** s and t differ at most in the case of their ASCII letters. */
  predicate Alike(s: string, t: string) {
    |s| == |t| && forall i :: 0 <= i < |s| ==> SameIgnoringCase(s[i], t[i])
  }

  /** Two characters lower-case alike exactly when they differ at most in case. */
  lemma LowerCharSame(a: char, b: char)
    ensures LowerChar(a) == LowerChar(b) <==> SameIgnoringCase(a, b)
  {
    LetterTables();
    if LowerChar(a) == LowerChar(b) && a != b {
      if 'A' <= a <= 'Z' {
        var k := a as int - 'A' as int;
        assert a == CapitalLetters[k] && b == SmallLetters[k];
      } else {
        var k := b as int - 'A' as int;
        assert b == CapitalLetters[k] && a == SmallLetters[k];
      }
    }
  }

  /** Two strings lower-case alike exactly when they differ at most in the
      case of their ASCII letters: str.lower() makes the comparison
      case-insensitive and nothing more. */
  lemma LowerSameIff(s: string, t: string)
    ensures Lower(s) == Lower(t) <==> Alike(s, t)
  {
    if Lower(s) == Lower(t) {
      forall i | 0 <= i < |s|
        ensures SameIgnoringCase(s[i], t[i])
      {
        assert Lower(s)[i] == Lower(t)[i];
        LowerCharSame(s[i], t[i]);
      }
    }
    if Alike(s, t) {
      forall i | 0 <= i < |s|
        ensures Lower(s)[i] == Lower(t)[i]
      {
        LowerCharSame(s[i], t[i]);
      }
    }
  }

  /** Whitespace is no letter, so a space matches only itself. */
  lemma SpaceAlike(a: char, b: char)
    requires SameIgnoringCase(a, b)
    ensures IsSpace(a) <==> IsSpace(b)
  {
    LetterTables();
  }

  /** Stripping strings that differ only in case gives strings that differ
      only in case. */
  lemma {:induction false} TrimLeftAlike(s: string, t: string)
    requires Alike(s, t)
    ensures Alike(TrimLeft(s), TrimLeft(t))
  {
    if s != [] {
      SpaceAlike(s[0], t[0]);
      if IsSpace(s[0]) {
        assert Alike(s[1..], t[1..]) by {
          forall i | 0 <= i < |s| - 1 ensures SameIgnoringCase(s[1..][i], t[1..][i]) {
            assert s[1..][i] == s[i + 1] && t[1..][i] == t[i + 1];
          }
        }
        TrimLeftAlike(s[1..], t[1..]);
      }
    }
  }

  lemma {:induction false} TrimRightAlike(s: string, t: string)
    requires Alike(s, t)
    ensures Alike(TrimRight(s), TrimRight(t))
  {
    if s != [] {
      SpaceAlike(s[|s| - 1], t[|t| - 1]);
      if IsSpace(s[|s| - 1]) {
        assert Alike(s[..|s| - 1], t[..|t| - 1]);
        TrimRightAlike(s[..|s| - 1], t[..|t| - 1]);
      }
    }
  }

  /** Stripping, then lower-casing, identifies two entries that differ only
      in the case of their letters. */
  lemma NormalizedAlike(s: string, t: string)
    requires Alike(s, t)
    ensures Lower(Trim(s)) == Lower(Trim(t))
  {
    TrimLeftAlike(s, t);
    TrimRightAlike(TrimLeft(s), TrimLeft(t));
    LowerSameIff(Trim(s), Trim(t));
  }

  /** A character that is not an ASCII letter (a wildcard, a bracket) occurs
      in the lower-cased string exactly when it occurs in the original. */
  lemma LowerKeepsChar(s: string, c: char)
    requires !('A' <= c <= 'Z') && !('a' <= c <= 'z')
    ensures c in Lower(s) <==> c in s
  {
    if c in s {
      var i :| 0 <= i < |s| && s[i] == c;
      assert Lower(s)[i] == c;
    }
    if c in Lower(s) {
      var i :| 0 <= i < |s| && Lower(s)[i] == c;
      assert s[i] == c;
    }
  }

  predicate IsDigit(c: char) {
    '0' <= c <= '9'
  }

  function DigitChar(d: nat): (c: char)
    requires d < 10
    ensures IsDigit(c)
  {
    ('0' as int + d) as char
  }

  function DigitValue(c: char): nat
    requires IsDigit(c)
  {
    c as int - '0' as int
  }

  /** Python's str(n) for a non-negative int: decimal digits, no leading zero. */
  function NatToString(n: nat): (r: string)
    ensures r != [] && forall i :: 0 <= i < |r| ==> IsDigit(r[i])
    ensures r[0] == '0' ==> n == 0
    ensures n < 10 <==> |r| == 1
  {
    if n < 10 then [DigitChar(n)] else NatToString(n / 10) + [DigitChar(n % 10)]
  }

  /** The value of a string of decimal digits (int(s) for such a string). */
  function ParseDecimal(s: string): nat
    requires forall i :: 0 <= i < |s| ==> IsDigit(s[i])
  {
    if s == [] then 0 else 10 * ParseDecimal(s[..|s| - 1]) + DigitValue(s[|s| - 1])
  }

  /** Reading back a rendered count gives the count: str(n) loses nothing. */
  lemma {:induction false} ParseNatToString(n: nat)
    ensures ParseDecimal(NatToString(n)) == n
  {
    var r := NatToString(n);
    if n >= 10 {
      ParseNatToString(n / 10);
      assert r[..|r| - 1] == NatToString(n / 10);
    }
  }

  /** Distinct counts are rendered as distinct strings. */
  lemma NatToStringInjective(m: nat, n: nat)
    ensures NatToString(m) == NatToString(n) ==> m == n
  {
    ParseNatToString(m);
    ParseNatToString(n);
  }

  /** q occurs in s starting at index i. */
  predicate OccursAt(q: string, s: string, i: int) {
    0 <= i && i + |q| <= |s| && s[i..i + |q|] == q
  }

  /** q occurs somewhere in s. */
  ghost predicate IsSubstring(q: string, s: string) {
    exists i :: OccursAt(q, s, i)
  }

  /** Python's `q in s` for strings. */
  function Contains(s: string, q: string): bool
    decreases |s|
  {
    if |q| <= |s| && s[..|q|] == q then true
    else if s == [] then false
    else Contains(s[1..], q)
  }

  /** Contains answers exactly whether q occurs somewhere in s. */
  lemma {:induction false} ContainsIff(s: string, q: string)
    ensures Contains(s, q) <==> IsSubstring(q, s)
    decreases |s|
  {
    if |q| <= |s| && s[..|q|] == q {
      assert OccursAt(q, s, 0);
    } else if s == [] {
    } else {
      ContainsIff(s[1..], q);
      if exists i :: OccursAt(q, s, i) {
        var i :| OccursAt(q, s, i);
        assert i != 0;
        assert s[1..][i - 1..i - 1 + |q|] == s[i..i + |q|];
        assert OccursAt(q, s[1..], i - 1);
      }
      if exists j :: OccursAt(q, s[1..], j) {
        var j :| OccursAt(q, s[1..], j);
        assert s[1..][j..j + |q|] == s[j + 1..j + 1 + |q|];
        assert OccursAt(q, s, j + 1);
      }
    }
  }

  /** Every string contains itself. */
  lemma ContainsSelf(s: string)
    ensures Contains(s, s)
  {
    assert s[..|s|] == s;
  }
}

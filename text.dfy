/** The three string operations the dashboard relies on, as Python defines
    them: `str` of an integer, `str.replace` of every occurrence, and the
    code-point ordering of strings used when manifest times are sorted. */
module Text {

  /** The decimal digit for `d`. */
  function Digit(d: nat): (c: char)
    requires d < 10
    ensures '0' <= c <= '9'
  {
    (48 + d) as char
  }

  /** Python's `str(n)` for a natural number: decimal, no leading zeros. */
  function NatStr(n: nat): (s: string)
    ensures |s| > 0 && '0' <= s[0] <= '9'
    ensures |s| == 1 <==> n < 10
    decreases n
  {
    if n < 10 then [Digit(n)] else NatStr(n / 10) + [Digit(n % 10)]
  }

  /** Python's `str(n)` for any integer: a minus sign before the digits of a
      negative number. */
  function Str(n: int): (s: string)
    ensures |s| > 0
    ensures s[0] == '-' <==> n < 0
  {
    if n < 0 then "-" + NatStr(-n) else NatStr(n)
  }

  lemma {:induction false} NatStrInjective(a: nat, b: nat)
    requires NatStr(a) == NatStr(b)
    ensures a == b
    decreases a
  {
    if a >= 10 {
      var sa, sb := NatStr(a), NatStr(b);
      assert sa[..|sa| - 1] == NatStr(a / 10) && sb[..|sb| - 1] == NatStr(b / 10);
      NatStrInjective(a / 10, b / 10);
      assert Digit(a % 10) == sa[|sa| - 1] == Digit(b % 10);
    }
  }

  /** Different integers print differently, so `str(mcc)` keys never collide. */
  lemma StrInjective(a: int, b: int)
    requires Str(a) == Str(b)
    ensures a == b
  {
    if a < 0 {
      assert Str(a)[1..] == NatStr(-a) && Str(b)[1..] == NatStr(-b);
      NatStrInjective(-a, -b);
    } else {
      NatStrInjective(a, b);
    }
  }

  /** Python's `s.replace(pat, rep)` for a non-empty `pat`: scanning from the
      left, every occurrence of `pat` that does not overlap an earlier
      replaced one becomes `rep`. */
  function ReplaceAll(s: string, pat: string, rep: string): string
    requires |pat| > 0
    decreases |s|
  {
    if |s| < |pat| then s
    else if s[..|pat|] == pat then rep + ReplaceAll(s[|pat|..], pat, rep)
    else [s[0]] + ReplaceAll(s[1..], pat, rep)
  }

  /** `pat` occurs in `s` starting at position `i`. */
  ghost predicate OccursAt(s: string, pat: string, i: int) {
    0 <= i && i + |pat| <= |s| && s[i..i + |pat|] == pat
  }

  /** `s` contains `pat` somewhere. */
  ghost predicate Contains(s: string, pat: string) {
    exists i :: OccursAt(s, pat, i)
  }

  /** A string without the pattern comes back unchanged. */
  lemma {:induction false} ReplaceAllAbsent(s: string, pat: string, rep: string)
    requires |pat| > 0 && !Contains(s, pat)
    ensures ReplaceAll(s, pat, rep) == s
    decreases |s|
  {
    if |s| >= |pat| {
      assert s[0..|pat|] == s[..|pat|];
      assert !OccursAt(s, pat, 0);
      forall i | OccursAt(s[1..], pat, i) ensures false {
        assert s[1..][i..i + |pat|] == s[i + 1..i + 1 + |pat|];
        assert OccursAt(s, pat, i + 1);
      }
      ReplaceAllAbsent(s[1..], pat, rep);
    }
  }

  /** A prefix in which the pattern's first character never occurs is copied
      through unchanged. */
  lemma {:induction false} ReplaceAllSkipsPrefix(p: string, x: string, pat: string, rep: string)
    requires |pat| > 0 && pat[0] !in p
    ensures ReplaceAll(p + x, pat, rep) == p + ReplaceAll(x, pat, rep)
    decreases |p|
  {
    var s := p + x;
    if |p| == 0 {
      assert s == x;
    } else if |s| < |pat| {
      assert ReplaceAll(s, pat, rep) == s;
      assert ReplaceAll(x, pat, rep) == x;
    } else {
      assert s[1..] == p[1..] + x;
      ReplaceAllSkipsPrefix(p[1..], x, pat, rep);
      assert s[..|pat|][0] == p[0] != pat[0];
      assert ReplaceAll(s, pat, rep) == [p[0]] + ReplaceAll(p[1..] + x, pat, rep);
      assert p == [p[0]] + p[1..];
    }
  }

  /** A template with one placeholder, and no other character that starts
      one, has exactly that placeholder substituted. */
  lemma SubstituteSinglePlaceholder(p: string, q: string, pat: string, rep: string)
    requires |pat| > 0 && pat[0] !in p && pat[0] !in q
    ensures ReplaceAll(p + pat + q, pat, rep) == p + rep + q
  {
    assert p + pat + q == p + (pat + q);
    ReplaceAllSkipsPrefix(p, pat + q, pat, rep);
    assert (pat + q)[..|pat|] == pat && (pat + q)[|pat|..] == q;
    assert ReplaceAll(pat + q, pat, rep) == rep + ReplaceAll(q, pat, rep);
    ReplaceAllSkipsPrefix(q, [], pat, rep);
    assert q + [] == q;
    assert ReplaceAll([], pat, rep) == [];
  }

  /** Python's `a <= b` on strings: code-point lexicographic order, with a
      proper prefix ordered first. */
  predicate LexLeq(a: string, b: string) {
    |a| == 0 || (|b| > 0 && (a[0] < b[0] || (a[0] == b[0] && LexLeq(a[1..], b[1..]))))
  }

  lemma {:induction false} LexLeqReflexive(a: string)
    ensures LexLeq(a, a)
    decreases |a|
  {
    if |a| > 0 {
      LexLeqReflexive(a[1..]);
    }
  }

  lemma {:induction false} LexLeqTotal(a: string, b: string)
    ensures LexLeq(a, b) || LexLeq(b, a)
    decreases |a|
  {
    if |a| > 0 && |b| > 0 && a[0] == b[0] {
      LexLeqTotal(a[1..], b[1..]);
    }
  }

  lemma {:induction false} LexLeqTransitive(a: string, b: string, c: string)
    requires LexLeq(a, b) && LexLeq(b, c)
    ensures LexLeq(a, c)
    decreases |a|
  {
    if |a| > 0 && a[0] == b[0] && b[0] == c[0] {
      LexLeqTransitive(a[1..], b[1..], c[1..]);
    }
  }
}

/** Sequence facts shared by the model: duplicate-free sequences, first
    occurrences, and the first-seen-order de-duplication that pandas'
    `Series.unique` and `DataFrame.drop_duplicates` perform. */
module Seqs {

  /** No element occurs twice. */
  ghost predicate NoDups<T>(s: seq<T>) {
    forall i, j :: 0 <= i < j < |s| ==> s[i] != s[j]
  }

  /** The position of the first occurrence of `x` in `s`. */
  function FirstIndex<T(==,!new)>(s: seq<T>, x: T): (k: nat)
    requires x in s
    ensures k < |s| && s[k] == x && x !in s[..k]
  {
    if s[0] == x then 0
    else
      var k := 1 + FirstIndex(s[1..], x);
      assert s[..k] == [s[0]] + s[1..][..k - 1];
      k
  }

  /** A position holding `x` with no `x` before it is the first index. */
  lemma FirstIndexUnique<T(!new)>(s: seq<T>, x: T, k: nat)
    requires k < |s| && s[k] == x && x !in s[..k]
    ensures FirstIndex(s, x) == k
  {
  }

  /** First occurrences are not moved by cutting off a tail. */
  lemma FirstIndexPrefix<T(!new)>(s: seq<T>, m: nat, x: T)
    requires m <= |s| && x in s[..m]
    ensures FirstIndex(s, x) == FirstIndex(s[..m], x)
  {
    var k := FirstIndex(s[..m], x);
    assert s[..k] == s[..m][..k];
    FirstIndexUnique(s, x, k);
  }

  /** In a duplicate-free sequence every position is a first occurrence. */
  lemma FirstIndexNoDups<T(!new)>(s: seq<T>, k: nat)
    requires NoDups(s) && k < |s|
    ensures FirstIndex(s, s[k]) == k
  {
    FirstIndexUnique(s, s[k], k);
  }

  /** The distinct elements of `s`, each kept at its first occurrence. */
  function Distinct<T(==,!new)>(s: seq<T>): (r: seq<T>)
    ensures NoDups(r)
    ensures forall x :: x in r <==> x in s
    ensures |r| <= |s|
    decreases |s|
  {
    if |s| == 0 then []
    else
      var d := Distinct(s[..|s| - 1]);
      assert s == s[..|s| - 1] + [s[|s| - 1]];
      if s[|s| - 1] in d then d else d + [s[|s| - 1]]
  }

  /** The elements of `s` that do not occur in `xs`, in order. */
  function Without<T(==,!new)>(s: seq<T>, xs: seq<T>): (r: seq<T>)
    ensures forall x :: x in r <==> x in s && x !in xs
    ensures NoDups(s) ==> NoDups(r)
    decreases |s|
  {
    if |s| == 0 then []
    else
      var w := Without(s[..|s| - 1], xs);
      assert s == s[..|s| - 1] + [s[|s| - 1]];
      if s[|s| - 1] in xs then w else w + [s[|s| - 1]]
  }

  /** Filtering depends only on which elements are excluded. */
  lemma {:induction false} WithoutSameMembers<T(!new)>(s: seq<T>, xs: seq<T>, ys: seq<T>)
    requires forall x :: x in xs <==> x in ys
    ensures Without(s, xs) == Without(s, ys)
    decreases |s|
  {
    if |s| > 0 {
      WithoutSameMembers(s[..|s| - 1], xs, ys);
    }
  }

  /** Filtering a sequence none of whose elements is excluded keeps it whole. */
  lemma {:induction false} WithoutNothing<T(!new)>(s: seq<T>, xs: seq<T>)
    requires forall x :: x in s ==> x !in xs
    ensures Without(s, xs) == s
    decreases |s|
  {
    if |s| > 0 {
      var p, x := s[..|s| - 1], s[|s| - 1];
      assert s == p + [x];
      forall y | y in p ensures y !in xs {
        assert y in s;
      }
      WithoutNothing(p, xs);
      assert Without(s, xs) == Without(p, xs) + [x];
    }
  }

  /** De-duplicating a sequence without duplicates changes nothing. */
  lemma {:induction false} DistinctOfNoDups<T(!new)>(s: seq<T>)
    requires NoDups(s)
    ensures Distinct(s) == s
    decreases |s|
  {
    if |s| > 0 {
      var p := s[..|s| - 1];
      assert NoDups(p);
      DistinctOfNoDups(p);
      assert s[|s| - 1] !in p;
      assert s == p + [s[|s| - 1]];
    }
  }

  /** One step of `Distinct`: appending an element adds it unless present. */
  lemma DistinctSnoc<T(!new)>(s: seq<T>, x: T)
    ensures Distinct(s + [x]) == if x in s then Distinct(s) else Distinct(s) + [x]
  {
    assert (s + [x])[..|s|] == s;
  }

  /** One step of `Without`. */
  lemma WithoutSnoc<T(!new)>(s: seq<T>, x: T, xs: seq<T>)
    ensures Without(s + [x], xs) == if x in xs then Without(s, xs) else Without(s, xs) + [x]
  {
    assert (s + [x])[..|s|] == s;
  }

  /** De-duplicating a concatenation keeps the distinct elements of the first
      part, then those of the second part that the first part lacks. */
  lemma {:induction false} DistinctAppend<T(!new)>(a: seq<T>, b: seq<T>)
    ensures Distinct(a + b) == Distinct(a) + Without(Distinct(b), a)
    decreases |b|
  {
    if |b| == 0 {
      assert a + b == a;
    } else {
      var b', x := b[..|b| - 1], b[|b| - 1];
      assert b == b' + [x];
      assert a + b == (a + b') + [x];
      var d, e := Distinct(a), Distinct(b');
      var w := Without(e, a);
      assert Distinct(a + b') == d + w by { DistinctAppend(a, b'); }
      if x in b' {
        assert Distinct(a + b) == d + w by { DistinctSnoc(a + b', x); }
        assert Distinct(b) == e by { DistinctSnoc(b', x); }
      } else if x in a {
        assert Distinct(a + b) == d + w by { DistinctSnoc(a + b', x); }
        assert Distinct(b) == e + [x] by { DistinctSnoc(b', x); }
        assert Without(e + [x], a) == w by { WithoutSnoc(e, x, a); }
      } else {
        assert Distinct(a + b) == d + (w + [x]) by { DistinctSnoc(a + b', x); }
        assert Distinct(b) == e + [x] by { DistinctSnoc(b', x); }
        assert Without(e + [x], a) == w + [x] by { WithoutSnoc(e, x, a); }
      }
    }
  }

  /** First-seen order: an element listed earlier by `Distinct` occurs first
      earlier in the input. */
  lemma {:induction false} DistinctFirstSeen<T(!new)>(s: seq<T>, i: nat, j: nat)
    requires i < j < |Distinct(s)|
    ensures FirstIndex(s, Distinct(s)[i]) < FirstIndex(s, Distinct(s)[j])
    decreases |s|
  {
    var n := |s|;
    var p := s[..n - 1];
    var d := Distinct(p);
    var r := Distinct(s);
    if j < |d| {
      assert r[i] == d[i] && r[j] == d[j];
      DistinctFirstSeen(p, i, j);
      FirstIndexPrefix(s, n - 1, d[i]);
      FirstIndexPrefix(s, n - 1, d[j]);
    } else {
      assert r == d + [s[n - 1]] && r[j] == s[n - 1] && s[n - 1] !in p;
      FirstIndexUnique(s, s[n - 1], n - 1);
      assert r[i] == d[i] && d[i] in p;
      FirstIndexPrefix(s, n - 1, d[i]);
    }
  }
}

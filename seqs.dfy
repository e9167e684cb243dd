/**
 * Row-sequence operations that pandas performs on a table: boolean-mask filtering
 * (`df[mask]`, `dropna`) and `drop_duplicates()` with its default `keep="first"`.
 * Everything is defined from the end of the sequence, the way a row is appended.
 */
module Seqs {

  /** No two positions of `s` hold equal values. */
  predicate Distinct<T(==)>(s: seq<T>) {
    forall i, j :: 0 <= i < j < |s| ==> s[i] != s[j]
  }

  /**
   * `a` is `b` with some elements left out, order kept. Matching from the back
   * greedily is complete for this, so the predicate is computable.
   */
  predicate IsSubseq<T(==)>(a: seq<T>, b: seq<T>)
    decreases |b|
  {
    if |a| == 0 then true
    else if |b| == 0 then false
    else if a[|a| - 1] == b[|b| - 1] then IsSubseq(a[..|a| - 1], b[..|b| - 1])
    else IsSubseq(a, b[..|b| - 1])
  }

  lemma {:induction false} SubseqLength<T>(a: seq<T>, b: seq<T>)
    requires IsSubseq(a, b)
    ensures |a| <= |b|
    decreases |b|
  {
    if |a| > 0 {
      if a[|a| - 1] == b[|b| - 1] {
        SubseqLength(a[..|a| - 1], b[..|b| - 1]);
      } else {
        SubseqLength(a, b[..|b| - 1]);
      }
    }
  }

  lemma {:induction false} SubseqRefl<T>(a: seq<T>)
    ensures IsSubseq(a, a)
    decreases |a|
  {
    if |a| > 0 { SubseqRefl(a[..|a| - 1]); }
  }

  /** Appending to the longer sequence keeps a subsequence. */
  lemma {:induction false} SubseqExtend<T>(a: seq<T>, b: seq<T>, x: T)
    requires IsSubseq(a, b)
    ensures IsSubseq(a, b + [x])
    decreases |b|, 1
  {
    assert (b + [x])[..|b|] == b;
    if |a| > 0 && a[|a| - 1] == x {
      SubseqDropLast(a, b);
    }
  }

  /** Leaving out the last element of the shorter sequence keeps a subsequence. */
  lemma {:induction false} SubseqDropLast<T>(a: seq<T>, b: seq<T>)
    requires IsSubseq(a, b) && |a| > 0
    ensures IsSubseq(a[..|a| - 1], b)
    decreases |b|, 0
  {
    var b' := b[..|b| - 1];
    assert b == b' + [b[|b| - 1]];
    if a[|a| - 1] == b[|b| - 1] {
      SubseqExtend(a[..|a| - 1], b', b[|b| - 1]);
    } else {
      SubseqDropLast(a, b');
      SubseqExtend(a[..|a| - 1], b', b[|b| - 1]);
    }
  }

  /** Appending the same element to both keeps a subsequence. */
  lemma SubseqAppend<T>(a: seq<T>, b: seq<T>, x: T)
    requires IsSubseq(a, b)
    ensures IsSubseq(a + [x], b + [x])
  {
    assert (a + [x])[..|a|] == a && (b + [x])[..|b|] == b;
  }

  lemma {:induction false} SubseqTransitive<T>(a: seq<T>, b: seq<T>, c: seq<T>)
    requires IsSubseq(a, b) && IsSubseq(b, c)
    ensures IsSubseq(a, c)
    decreases |c|
  {
    if |a| > 0 {
      SubseqLength(a, b);
      var c' := c[..|c| - 1];
      if b[|b| - 1] == c[|c| - 1] {
        if a[|a| - 1] == b[|b| - 1] {
          SubseqTransitive(a[..|a| - 1], b[..|b| - 1], c');
        } else {
          SubseqTransitive(a, b[..|b| - 1], c');
        }
      } else {
        SubseqTransitive(a, b, c');
        if a[|a| - 1] == c[|c| - 1] {
          SubseqDropLast(a, c');
        }
      }
    }
  }

  /** Every element of a subsequence is an element of the whole. */
  lemma {:induction false} SubseqMembers<T>(a: seq<T>, b: seq<T>)
    requires IsSubseq(a, b)
    ensures forall x :: x in a ==> x in b
    decreases |b|
  {
    if |a| > 0 {
      var b' := b[..|b| - 1];
      assert b == b' + [b[|b| - 1]];
      if a[|a| - 1] == b[|b| - 1] {
        SubseqMembers(a[..|a| - 1], b');
        assert a == a[..|a| - 1] + [a[|a| - 1]];
      } else {
        SubseqMembers(a, b');
      }
    }
  }

  /** `s[mask]`: the elements satisfying `p`, in their original order. */
  function Filter<T(==,!new)>(s: seq<T>, p: T -> bool): (r: seq<T>)
    ensures forall x :: x in r <==> x in s && p(x)
    ensures IsSubseq(r, s)
    ensures |r| == |s| <==> forall i :: 0 <= i < |s| ==> p(s[i])
    ensures (forall i :: 0 <= i < |s| ==> p(s[i])) ==> r == s
  {
    if s == [] then []
    else
      var s', x := s[..|s| - 1], s[|s| - 1];
      assert s == s' + [x];
      var r' := Filter(s', p);
      SubseqLength(r', s');
      if p(x) then
        SubseqAppend(r', s', x);
        r' + [x]
      else
        SubseqExtend(r', s', x);
        assert !p(s[|s| - 1]);
        r'
  }

  /** Every element that satisfies the mask is kept as often as it occurs; no other is kept. */
  lemma {:induction false} FilterCount<T(!new)>(s: seq<T>, p: T -> bool, x: T)
    ensures Count(Filter(s, p), x) == if p(x) then Count(s, x) else 0
  {
    if s != [] {
      var s', y := s[..|s| - 1], s[|s| - 1];
      assert s == s' + [y];
      FilterCount(s', p, x);
      var r' := Filter(s', p);
      if p(y) {
        assert Filter(s, p) == r' + [y];
        CountAppend(r', y, x);
      }
    }
  }

  /** Filtering twice is filtering by both conditions. */
  lemma {:induction false} FilterFilter<T(!new)>(s: seq<T>, p: T -> bool, q: T -> bool)
    ensures Filter(Filter(s, p), q) == Filter(s, x => p(x) && q(x))
  {
    if s != [] {
      var s', x := s[..|s| - 1], s[|s| - 1];
      FilterFilter(s', p, q);
      if p(x) {
        assert Filter(s, p)[..|Filter(s, p)| - 1] == Filter(s', p);
      }
    }
  }

  /** The position of the first occurrence of `x` in `s`. */
  function FirstIndex<T(==)>(s: seq<T>, x: T): (i: nat)
    requires x in s
    ensures i < |s| && s[i] == x && x !in s[..i]
  {
    var s' := s[..|s| - 1];
    if x in s' then FirstIndex(s', x) else |s| - 1
  }

  /** A first occurrence is not moved by appending. */
  lemma FirstIndexAppend<T>(s: seq<T>, y: T, x: T)
    requires x in s
    ensures FirstIndex(s + [y], x) == FirstIndex(s, x)
  {
    assert (s + [y])[..|s|] == s;
  }

  /**
   * `drop_duplicates()` with `keep="first"`: a row is kept exactly when no earlier
   * row is equal to it (pandas' `duplicated()` is false for it).
   */
  function Dedup<T(==)>(s: seq<T>): (r: seq<T>)
  {
    if s == [] then []
    else
      var s', x := s[..|s| - 1], s[|s| - 1];
      if x in s' then Dedup(s') else Dedup(s') + [x]
  }

  /** Deduplication keeps exactly the elements of the input. */
  lemma {:induction false} DedupMembers<T(!new)>(s: seq<T>)
    ensures forall x :: x in Dedup(s) <==> x in s
  {
    if s != [] {
      var s', x := s[..|s| - 1], s[|s| - 1];
      DedupMembers(s');
      assert s == s' + [x];
    }
  }

  /** No element is kept twice. */
  lemma {:induction false} DedupDistinct<T(!new)>(s: seq<T>)
    ensures Distinct(Dedup(s))
  {
    if s != [] {
      var s', x := s[..|s| - 1], s[|s| - 1];
      DedupDistinct(s');
      DedupMembers(s');
    }
  }

  /** The kept rows are a subsequence of the input: the order is preserved. */
  lemma {:induction false} DedupSubseq<T>(s: seq<T>)
    ensures IsSubseq(Dedup(s), s)
    ensures |Dedup(s)| <= |s|
  {
    if s != [] {
      var s', x := s[..|s| - 1], s[|s| - 1];
      DedupSubseq(s');
      assert s == s' + [x];
      if x in s' {
        SubseqExtend(Dedup(s'), s', x);
      } else {
        SubseqAppend(Dedup(s'), s', x);
      }
      SubseqLength(Dedup(s), s);
    }
  }

  /** The copy that is kept is the first occurrence, and kept rows follow their first occurrences. */
  lemma DedupFirstOccurrence<T(!new)>(s: seq<T>)
    ensures forall x :: x in Dedup(s) ==> x in s
    ensures forall i, j :: 0 <= i < j < |Dedup(s)| ==>
              FirstIndex(s, Dedup(s)[i]) < FirstIndex(s, Dedup(s)[j])
  {
    DedupMembers(s);
    forall i, j | 0 <= i < j < |Dedup(s)|
      ensures FirstIndex(s, Dedup(s)[i]) < FirstIndex(s, Dedup(s)[j])
    {
      DedupFirstPair(s, i, j);
    }
  }

  lemma {:induction false} DedupFirstPair<T(!new)>(s: seq<T>, i: nat, j: nat)
    requires i < j < |Dedup(s)|
    ensures Dedup(s)[i] in s && Dedup(s)[j] in s
    ensures FirstIndex(s, Dedup(s)[i]) < FirstIndex(s, Dedup(s)[j])
  {
    var s', x := s[..|s| - 1], s[|s| - 1];
    var d, d' := Dedup(s), Dedup(s');
    assert s == s' + [x];
    DedupMembers(s');
    assert d[i] == d'[i] && d[i] in s';
    FirstIndexAppend(s', x, d[i]);
    if j < |d'| {
      DedupFirstPair(s', i, j);
      assert d[j] == d'[j];
      FirstIndexAppend(s', x, d[j]);
    } else {
      assert d[j] == x && x !in s';
      assert forall t :: 0 <= t < |s'| ==> s[t] == s'[t];
      assert FirstIndex(s, x) == |s| - 1;
    }
  }

  /** Appending keeps a sequence duplicate-free exactly when the new element is new. */
  lemma DistinctSnoc<T>(s: seq<T>, x: T)
    ensures Distinct(s + [x]) <==> Distinct(s) && x !in s
  {
    var t := s + [x];
    assert forall i :: 0 <= i < |s| ==> t[i] == s[i];
    if x in s {
      var k :| 0 <= k < |s| && s[k] == x;
      assert t[k] == t[|s|];
    }
  }

  /** Deduplication removes nothing exactly when there are no duplicates, and then it changes nothing. */
  lemma {:induction false} DedupKeepsAll<T(!new)>(s: seq<T>)
    ensures |Dedup(s)| == |s| <==> Distinct(s)
    ensures Distinct(s) ==> Dedup(s) == s
  {
    if s != [] {
      var s', x := s[..|s| - 1], s[|s| - 1];
      DedupKeepsAll(s');
      DedupSubseq(s');
      assert s == s' + [x];
      DistinctSnoc(s', x);
    }
  }

  /** The number of occurrences of `x` in `s`. */
  function Count<T(==)>(s: seq<T>, x: T): (n: nat)
    ensures n <= |s|
    ensures n == 0 <==> x !in s
  {
    if s == [] then 0
    else
      var s' := s[..|s| - 1];
      assert s == s' + [s[|s| - 1]];
      Count(s', x) + (if s[|s| - 1] == x then 1 else 0)
  }

  lemma CountAppend<T>(s: seq<T>, y: T, x: T)
    ensures Count(s + [y], x) == Count(s, x) + (if y == x then 1 else 0)
  {
    assert (s + [y])[..|s|] == s;
  }

  /** An element that occurs exactly once is found only at its first index. */
  lemma {:induction false} CountOnce<T>(s: seq<T>, x: T, i: nat)
    requires Count(s, x) == 1 && i < |s| && s[i] == x
    ensures i == FirstIndex(s, x)
  {
    var s' := s[..|s| - 1];
    assert s == s' + [s[|s| - 1]];
    if i < |s| - 1 {
      assert s'[i] == x;
      if s[|s| - 1] != x {
        CountOnce(s', x, i);
      }
    } else {
      assert Count(s', x) == 0;
    }
  }
}

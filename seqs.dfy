/** Order-preserving row filters and first-occurrence de-duplication over sequences:
    the two table operations every cleaning step is built from. */
module Seqs {

  /** The rows of `s` that satisfy `p`, in their original order. */
  function Filter<T>(s: seq<T>, p: T -> bool): (r: seq<T>)
    ensures |r| <= |s|
    decreases |s|
  {
    if |s| == 0 then [] else (if p(s[0]) then [s[0]] else []) + Filter(s[1..], p)
  }

  /** Number of rows of `s` that satisfy `p`. */
  function Count<T>(s: seq<T>, p: T -> bool): nat
    decreases |s|
  {
    if |s| == 0 then 0 else (if p(s[0]) then 1 else 0) + Count(s[1..], p)
  }

  /** `a` can be obtained from `b` by deleting elements: the relative order of what is kept is preserved. */
  ghost predicate SubseqOf<T>(a: seq<T>, b: seq<T>)
    decreases |b|
  {
    if |a| == 0 then true
    else if |b| == 0 then false
    else (a[0] == b[0] && SubseqOf(a[1..], b[1..])) || SubseqOf(a, b[1..])
  }

  /** No element occurs twice. */
  ghost predicate Distinct<T>(s: seq<T>)
  {
    forall i, j :: 0 <= i < j < |s| ==> s[i] != s[j]
  }

  /** Filtering keeps exactly the satisfying rows, in order, and as many as there are. */
  lemma {:induction false} FilterSpec<T>(s: seq<T>, p: T -> bool)
    ensures forall x :: x in Filter(s, p) <==> x in s && p(x)
    ensures SubseqOf(Filter(s, p), s)
    ensures |Filter(s, p)| == Count(s, p)
  {
    if |s| > 0 {
      FilterSpec(s[1..], p);
      var rest := Filter(s[1..], p);
      if p(s[0]) {
        assert Filter(s, p) == [s[0]] + rest;
        assert ([s[0]] + rest)[1..] == rest;
      } else {
        assert Filter(s, p) == rest;
        SubseqDropHead(rest, s);
      }
      forall x
        ensures x in Filter(s, p) <==> x in s && p(x)
      {
        assert x in s <==> x == s[0] || x in s[1..];
      }
    }
  }

  /** Filtering a sequence without repeats yields one without repeats. */
  lemma {:induction false} FilterDistinct<T>(s: seq<T>, p: T -> bool)
    requires Distinct(s)
    ensures Distinct(Filter(s, p))
  {
    if |s| > 0 {
      assert Distinct(s[1..]) by {
        forall i, j | 0 <= i < j < |s[1..]| ensures s[1..][i] != s[1..][j] {
          assert s[1..][i] == s[i + 1] && s[1..][j] == s[j + 1];
        }
      }
      FilterDistinct(s[1..], p);
      FilterSpec(s[1..], p);
      assert s[0] !in s[1..];
      var rest := Filter(s[1..], p);
      if p(s[0]) {
        assert Filter(s, p) == [s[0]] + rest;
        forall i, j | 0 <= i < j < |Filter(s, p)| ensures Filter(s, p)[i] != Filter(s, p)[j] {
          if i == 0 {
            assert Filter(s, p)[j] == rest[j - 1] && rest[j - 1] in rest;
          } else {
            assert Filter(s, p)[i] == rest[i - 1] && Filter(s, p)[j] == rest[j - 1];
          }
        }
      }
    }
  }

  /** When no row fails `p`, filtering changes nothing. */
  lemma {:induction false} FilterKeepsAll<T>(s: seq<T>, p: T -> bool)
    requires Count(s, p) == |s|
    ensures Filter(s, p) == s
  {
    if |s| > 0 {
      CountBound(s[1..], p);
      FilterKeepsAll(s[1..], p);
      assert s == [s[0]] + s[1..];
    }
  }

  /** The rows `Filter` removes are exactly the rows that fail `p`. */
  lemma {:induction false} FilterRemoved<T>(s: seq<T>, p: T -> bool, q: T -> bool)
    requires forall x :: q(x) == !p(x)
    ensures |s| - |Filter(s, p)| == Count(s, q)
  {
    if |s| > 0 {
      FilterRemoved(s[1..], p, q);
    }
  }

  lemma {:induction false} CountBound<T>(s: seq<T>, p: T -> bool)
    ensures Count(s, p) <= |s|
  {
    if |s| > 0 {
      CountBound(s[1..], p);
    }
  }

  /** A positive count has a witness row. */
  lemma {:induction false} CountWitness<T>(s: seq<T>, p: T -> bool)
    requires Count(s, p) > 0
    ensures exists i :: 0 <= i < |s| && p(s[i])
  {
    if !p(s[0]) {
      CountWitness(s[1..], p);
      var i :| 0 <= i < |s[1..]| && p(s[1..][i]);
      assert p(s[i + 1]);
    }
  }

  /** No satisfying row, no count. */
  lemma {:induction false} CountZero<T>(s: seq<T>, p: T -> bool)
    requires forall i :: 0 <= i < |s| ==> !p(s[i])
    ensures Count(s, p) == 0
  {
    if |s| > 0 {
      assert forall i :: 0 <= i < |s[1..]| ==> s[1..][i] == s[i + 1];
      CountZero(s[1..], p);
    }
  }

  /** A satisfying row makes the count positive. */
  lemma {:induction false} CountPositive<T>(s: seq<T>, p: T -> bool, i: int)
    requires 0 <= i < |s| && p(s[i])
    ensures Count(s, p) > 0
  {
    if i > 0 {
      CountPositive(s[1..], p, i - 1);
    }
  }

  lemma {:induction false} SubseqDropHead<T>(a: seq<T>, b: seq<T>)
    requires |b| > 0 && SubseqOf(a, b[1..])
    ensures SubseqOf(a, b)
  {
  }

  lemma {:induction false} SubseqExtend<T>(a: seq<T>, b: seq<T>, x: T)
    requires SubseqOf(a, b)
    ensures SubseqOf(a, b + [x])
    decreases |b|
  {
    if |a| > 0 {
      assert (b + [x])[1..] == b[1..] + [x];
      if a[0] == b[0] && SubseqOf(a[1..], b[1..]) {
        SubseqExtend(a[1..], b[1..], x);
      } else {
        SubseqExtend(a, b[1..], x);
      }
    }
  }

  lemma {:induction false} SubseqAppend<T>(a: seq<T>, b: seq<T>, x: T)
    requires SubseqOf(a, b)
    ensures SubseqOf(a + [x], b + [x])
    decreases |b|
  {
    if |a| == 0 {
      if |b| > 0 {
        assert (b + [x])[1..] == b[1..] + [x];
        SubseqAppend(a, b[1..], x);
      }
    } else {
      assert (b + [x])[1..] == b[1..] + [x];
      assert (a + [x])[1..] == a[1..] + [x];
      if a[0] == b[0] && SubseqOf(a[1..], b[1..]) {
        SubseqAppend(a[1..], b[1..], x);
      } else {
        SubseqAppend(a, b[1..], x);
      }
    }
  }

  /** The position of the first occurrence of `x` in `s`. */
  function FirstIndex<T(==)>(s: seq<T>, x: T): (i: nat)
    requires x in s
    ensures i < |s| && s[i] == x && x !in s[..i]
    decreases |s|
  {
    var init := s[..|s| - 1];
    if x in init then
      assert init[..FirstIndex(init, x)] == s[..FirstIndex(init, x)];
      FirstIndex(init, x)
    else
      assert s[..|s| - 1] == init;
      |s| - 1
  }

  /** Number of rows equal to some earlier row (what a "duplicated" mask sums to). */
  function DuplicateCount<T(==)>(s: seq<T>): nat
    decreases |s|
  {
    if |s| == 0 then 0
    else DuplicateCount(s[..|s| - 1]) + (if s[|s| - 1] in s[..|s| - 1] then 1 else 0)
  }

  /** Drop every row equal to an earlier row, keeping the first occurrence. */
  function Dedup<T(==)>(s: seq<T>): (r: seq<T>)
    decreases |s|
  {
    if |s| == 0 then []
    else
      var init := s[..|s| - 1];
      if s[|s| - 1] in init then Dedup(init) else Dedup(init) + [s[|s| - 1]]
  }

  /** De-duplication leaves every distinct row exactly once, in the order of first occurrence,
      and removes exactly the rows that repeat an earlier one. */
  lemma DedupSpec<T>(s: seq<T>)
    ensures forall x :: x in Dedup(s) <==> x in s
    ensures Distinct(Dedup(s))
    ensures SubseqOf(Dedup(s), s)
    ensures forall i, j :: 0 <= i < j < |Dedup(s)| ==> FirstIndex(s, Dedup(s)[i]) < FirstIndex(s, Dedup(s)[j])
    ensures |s| - |Dedup(s)| == DuplicateCount(s)
  {
    DedupMembers(s);
    forall x
      ensures x in Dedup(s) <==> x in s
    {
      if x in s {
        var i :| 0 <= i < |s| && s[i] == x;
      }
      if x in Dedup(s) {
        var i :| 0 <= i < |Dedup(s)| && Dedup(s)[i] == x;
      }
    }
    DedupDistinct(s);
    DedupSubseq(s);
    DedupOrder(s);
    DedupCount(s);
  }

  lemma {:induction false} DedupMembers<T>(s: seq<T>)
    ensures forall i :: 0 <= i < |Dedup(s)| ==> Dedup(s)[i] in s
    ensures forall i :: 0 <= i < |s| ==> s[i] in Dedup(s)
    decreases |s|
  {
    if |s| > 0 {
      var init := s[..|s| - 1];
      var last := s[|s| - 1];
      assert s == init + [last];
      DedupMembers(init);
      var d := Dedup(init);
      forall i | 0 <= i < |s|
        ensures s[i] in Dedup(s)
      {
        if i < |init| {
          assert s[i] == init[i];
        }
      }
      forall i | 0 <= i < |Dedup(s)|
        ensures Dedup(s)[i] in s
      {
        if i < |d| {
          assert Dedup(s)[i] == d[i];
        }
      }
    }
  }

  lemma {:induction false} DedupDistinct<T>(s: seq<T>)
    ensures Distinct(Dedup(s))
    decreases |s|
  {
    if |s| > 0 {
      var init := s[..|s| - 1];
      var last := s[|s| - 1];
      DedupDistinct(init);
      DedupMembers(init);
      var d := Dedup(init);
      if last !in init {
        var r := d + [last];
        forall i, j | 0 <= i < j < |r|
          ensures r[i] != r[j]
        {
          assert r[i] == d[i] && d[i] in d;
          if j < |d| {
            assert r[j] == d[j];
          }
        }
      }
    }
  }

  lemma {:induction false} DedupSubseq<T>(s: seq<T>)
    ensures SubseqOf(Dedup(s), s)
    decreases |s|
  {
    if |s| > 0 {
      var init := s[..|s| - 1];
      var last := s[|s| - 1];
      assert s == init + [last];
      DedupSubseq(init);
      if last in init {
        SubseqExtend(Dedup(init), init, last);
      } else {
        SubseqAppend(Dedup(init), init, last);
      }
    }
  }

  /** The first occurrence of an element of the prefix is where it was in the prefix. */
  lemma FirstIndexOfPrefix<T>(init: seq<T>, last: T, x: T)
    requires x in init
    ensures FirstIndex(init + [last], x) == FirstIndex(init, x)
  {
    assert (init + [last])[..|init|] == init;
  }

  lemma {:induction false} DedupOrder<T>(s: seq<T>)
    ensures forall i :: 0 <= i < |Dedup(s)| ==> Dedup(s)[i] in s
    ensures forall i, j :: 0 <= i < j < |Dedup(s)| ==> FirstIndex(s, Dedup(s)[i]) < FirstIndex(s, Dedup(s)[j])
    decreases |s|
  {
    if |s| > 0 {
      var init := s[..|s| - 1];
      var last := s[|s| - 1];
      assert s == init + [last];
      DedupMembers(s);
      DedupOrder(init);
      DedupMembers(init);
      var d := Dedup(init);
      if last in init {
        forall i, j | 0 <= i < j < |d|
          ensures FirstIndex(s, d[i]) < FirstIndex(s, d[j])
        {
          assert d[i] in d && d[j] in d;
          FirstIndexOfPrefix(init, last, d[i]);
          FirstIndexOfPrefix(init, last, d[j]);
        }
      } else {
        AppendKeepsFirstOrder(init, d, last);
      }
    }
  }

  lemma {:induction false} DedupCount<T>(s: seq<T>)
    ensures |s| - |Dedup(s)| == DuplicateCount(s)
    decreases |s|
  {
    if |s| > 0 {
      DedupCount(s[..|s| - 1]);
    }
  }

  /** Appending a new last element to both a sequence and an ordered selection of its elements
      keeps the selection in order of first occurrence. */
  lemma AppendKeepsFirstOrder<T>(init: seq<T>, d: seq<T>, last: T)
    requires last !in init
    requires forall k :: 0 <= k < |d| ==> d[k] in init
    requires forall i, j :: 0 <= i < j < |d| ==> FirstIndex(init, d[i]) < FirstIndex(init, d[j])
    ensures forall i, j :: 0 <= i < j < |d + [last]| ==>
              FirstIndex(init + [last], (d + [last])[i]) < FirstIndex(init + [last], (d + [last])[j])
  {
    var s := init + [last];
    var r := d + [last];
    assert FirstIndex(s, last) == |init| by {
      assert s[..|s| - 1] == init;
    }
    forall i, j | 0 <= i < j < |r|
      ensures FirstIndex(s, r[i]) < FirstIndex(s, r[j])
    {
      assert r[i] == d[i] && d[i] in d;
      FirstIndexOfPrefix(init, last, d[i]);
      if j < |d| {
        assert r[j] == d[j] && d[j] in d;
        FirstIndexOfPrefix(init, last, d[j]);
      }
    }
  }

  /** A sequence without repeats is its own de-duplication. */
  lemma {:induction false} DedupOfDistinct<T>(s: seq<T>)
    requires DuplicateCount(s) == 0
    ensures Dedup(s) == s
    decreases |s|
  {
    if |s| > 0 {
      var init := s[..|s| - 1];
      DedupOfDistinct(init);
      assert s == init + [s[|s| - 1]];
    }
  }
}

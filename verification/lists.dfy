/**
 * The two array idioms the store is built from: `Array.prototype.filter`
 * and the "subsequence" relation that a filter's result stands in to its
 * input.
 */
module Lists {

  /** `a` is `b` with some elements left out, the rest in their order. */
  predicate IsSubseq<T(==)>(a: seq<T>, b: seq<T>)
    decreases |b|
  {
    |a| == 0
    || (|b| > 0 && ((a[0] == b[0] && IsSubseq(a[1..], b[1..])) || IsSubseq(a, b[1..])))
  }

  /** A subsequence of a subsequence is a subsequence. */
  lemma {:induction false} SubseqTransitive<T>(a: seq<T>, b: seq<T>, c: seq<T>)
    requires IsSubseq(a, b) && IsSubseq(b, c)
    ensures IsSubseq(a, c)
    decreases |c|
  {
    if |a| > 0 {
      if b[0] == c[0] && IsSubseq(b[1..], c[1..]) {
        if a[0] == b[0] && IsSubseq(a[1..], b[1..]) {
          SubseqTransitive(a[1..], b[1..], c[1..]);
        } else {
          SubseqTransitive(a, b[1..], c[1..]);
        }
      } else {
        SubseqTransitive(a, b, c[1..]);
      }
    }
  }

  /**
   * `s.filter(p)`. The result keeps, in order, every element satisfying `p`
   * with its multiplicity, and nothing else; together the three facts below
   * pin the result down completely.
   */
  function Filter<T(==)>(s: seq<T>, p: T -> bool): (r: seq<T>)
    ensures IsSubseq(r, s)
    ensures forall i :: 0 <= i < |r| ==> p(r[i])
    ensures forall x :: x in s && p(x) ==> multiset(r)[x] == multiset(s)[x]
    ensures multiset(r) <= multiset(s)
    decreases |s|
  {
    if |s| == 0 then []
    else
      var rest := Filter(s[1..], p);
      assert s == [s[0]] + s[1..];
      if p(s[0]) then
        assert ([s[0]] + rest)[1..] == rest;
        [s[0]] + rest
      else rest
  }

  /** An element of a filter's result comes from its input. */
  lemma FilterMember<T>(s: seq<T>, p: T -> bool, x: T)
    ensures x in Filter(s, p) <==> x in s && p(x)
  {
    var r := Filter(s, p);
    if x in r {
      assert multiset(r)[x] > 0;
    }
    if x in s && p(x) {
      assert multiset(s)[x] > 0;
    }
  }

  /** A filter that keeps everything returns its input. */
  lemma {:induction false} FilterAll<T>(s: seq<T>, p: T -> bool)
    requires forall i :: 0 <= i < |s| ==> p(s[i])
    ensures Filter(s, p) == s
    decreases |s|
  {
    if |s| > 0 {
      FilterAll(s[1..], p);
      assert s == [s[0]] + s[1..];
    }
  }

  /** Filtering `s + [x]` when `x` is dropped. */
  lemma {:induction false} FilterSnoc<T>(s: seq<T>, x: T, p: T -> bool)
    requires !p(x)
    ensures Filter(s + [x], p) == Filter(s, p)
    decreases |s|
  {
    if |s| == 0 {
      assert [x][1..] == [];
    } else {
      assert (s + [x])[1..] == s[1..] + [x];
      FilterSnoc(s[1..], x, p);
    }
  }
}

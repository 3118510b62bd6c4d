/** Sequence vocabulary shared by the stages of the exception scan: optional and
    failing results, the last element of a list, order-preserving filtering and
    the subsequence relation. Every recursive definition here peels off the LAST
    element, so that a loop that appends while walking a list front to back is
    described by the definition applied to the prefix it has consumed. */
module Seqs {

  datatype Option<+T> = None | Some(value: T)

  datatype Result<+T, +E> = Ok(value: T) | Err(error: E)

  function Last<T>(s: seq<T>): T
    requires |s| > 0
  {
    s[|s| - 1]
  }

  function DropLast<T>(s: seq<T>): seq<T>
    requires |s| > 0
  {
    s[..|s| - 1]
  }

  lemma PrefixStep<T>(s: seq<T>, i: nat)
    requires i < |s|
    ensures DropLast(s[..i + 1]) == s[..i] && Last(s[..i + 1]) == s[i]
  {
  }

  /** The elements of `s` that satisfy `p`, in their original order: what a loop
      that copies the accepted elements into a fresh list produces. */
  function Filter<T(==)>(s: seq<T>, p: T -> bool): (r: seq<T>)
    ensures |r| <= |s|
    ensures forall i :: 0 <= i < |r| ==> r[i] in s && p(r[i])
    ensures forall i :: 0 <= i < |s| && p(s[i]) ==> s[i] in r
    decreases |s|
  {
    if s == [] then []
    else
      assert s == DropLast(s) + [Last(s)];
      Filter(DropLast(s), p) + (if p(Last(s)) then [Last(s)] else [])
  }

  lemma {:induction false} FilterAllAccepted<T>(s: seq<T>, p: T -> bool)
    requires forall i :: 0 <= i < |s| ==> p(s[i])
    ensures Filter(s, p) == s
    decreases |s|
  {
    if s != [] {
      assert s == DropLast(s) + [Last(s)];
      FilterAllAccepted(DropLast(s), p);
    }
  }

  /** Every property all elements share survives filtering. */
  lemma {:induction false} FilterKeeps<T>(s: seq<T>, p: T -> bool, shared: T -> bool)
    requires forall i :: 0 <= i < |s| ==> shared(s[i])
    ensures forall i :: 0 <= i < |Filter(s, p)| ==> shared(Filter(s, p)[i]) && p(Filter(s, p)[i])
    decreases |s|
  {
    if s != [] {
      FilterKeeps(DropLast(s), p, shared);
    }
  }

  /** Filtering twice with the same test is filtering once. */
  lemma FilterIdempotent<T>(s: seq<T>, p: T -> bool)
    ensures Filter(Filter(s, p), p) == Filter(s, p)
  {
    FilterAllAccepted(Filter(s, p), p);
  }

  /** `a` can be obtained from `b` by deleting elements: its elements occur in
      `b` in the same relative order. */
  predicate IsSubseq<T(==)>(a: seq<T>, b: seq<T>)
    decreases |b|
  {
    a == [] ||
    (b != [] &&
     ((Last(a) == Last(b) && IsSubseq(DropLast(a), DropLast(b))) || IsSubseq(a, DropLast(b))))
  }

  /** A subsequence of all but the last element is a subsequence of the whole. */
  lemma SubseqOfDropLast<T>(a: seq<T>, b: seq<T>)
    requires b != [] && IsSubseq(a, DropLast(b))
    ensures IsSubseq(a, b)
  {
  }

  /** Both sides may be extended by the last element of the larger one. */
  lemma SubseqAppendLast<T>(a: seq<T>, b: seq<T>)
    requires b != [] && IsSubseq(a, DropLast(b))
    ensures IsSubseq(a + [Last(b)], b)
  {
    assert DropLast(a + [Last(b)]) == a;
  }

  /** Dropping a prefix of a suffix drops the two prefixes at once. */
  lemma SuffixOfSuffix<T>(s: seq<T>, m: nat, k: nat)
    requires m + k <= |s|
    ensures s[m..][k..] == s[m + k..]
  {
    assert forall i :: 0 <= i < |s| - m - k ==> s[m..][k..][i] == s[m + k..][i];
  }

  lemma SuffixOfSuffixIsSubseq<T>(s: seq<T>, m: nat, k: nat)
    requires m + k <= |s|
    ensures IsSubseq(s[m..][k..], s)
  {
    SuffixOfSuffix(s, m, k);
    SuffixIsSubseq(s, m + k);
  }

  lemma SubseqExtend<T>(a: seq<T>, b: seq<T>, x: T)
    requires IsSubseq(a, b)
    ensures IsSubseq(a, b + [x])
  {
    assert DropLast(b + [x]) == b;
  }

  lemma SubseqAppendBoth<T>(a: seq<T>, b: seq<T>, x: T)
    requires IsSubseq(a, b)
    ensures IsSubseq(a + [x], b + [x])
  {
    assert DropLast(a + [x]) == a;
    assert DropLast(b + [x]) == b;
  }

  lemma {:induction false} SubseqReflexive<T>(s: seq<T>)
    ensures IsSubseq(s, s)
    decreases |s|
  {
    if s != [] {
      SubseqReflexive(DropLast(s));
    }
  }

  /** A suffix of a list is a subsequence of it. */
  lemma {:induction false} SuffixIsSubseq<T>(s: seq<T>, k: nat)
    requires k <= |s|
    ensures IsSubseq(s[k..], s)
    decreases |s|
  {
    if k == |s| {
    } else {
      assert DropLast(s[k..]) == DropLast(s)[k..];
      SuffixIsSubseq(DropLast(s), k);
    }
  }

  lemma {:induction false} FilterIsSubseq<T>(s: seq<T>, p: T -> bool)
    ensures IsSubseq(Filter(s, p), s)
    decreases |s|
  {
    if s != [] {
      FilterIsSubseq(DropLast(s), p);
      assert s == DropLast(s) + [Last(s)];
      if p(Last(s)) {
        assert Filter(s, p) == Filter(DropLast(s), p) + [Last(s)];
        SubseqAppendBoth(Filter(DropLast(s), p), DropLast(s), Last(s));
      } else {
        assert Filter(s, p) == Filter(DropLast(s), p);
        SubseqExtend(Filter(DropLast(s), p), DropLast(s), Last(s));
      }
    }
  }

  lemma {:induction false} SubseqTransitive<T>(a: seq<T>, b: seq<T>, c: seq<T>)
    requires IsSubseq(a, b) && IsSubseq(b, c)
    ensures IsSubseq(a, c)
    decreases |c|
  {
    if a != [] {
      assert b != [] && c != [];
      if IsSubseq(b, DropLast(c)) {
        SubseqTransitive(a, b, DropLast(c));
      } else {
        assert Last(b) == Last(c) && IsSubseq(DropLast(b), DropLast(c));
        if Last(a) == Last(b) && IsSubseq(DropLast(a), DropLast(b)) {
          SubseqTransitive(DropLast(a), DropLast(b), DropLast(c));
        } else {
          SubseqTransitive(a, DropLast(b), DropLast(c));
        }
      }
    }
  }

  /** A subsequence is no longer than the list it comes from, and every element
      of it occurs in that list. */
  lemma {:induction false} SubseqBounds<T>(a: seq<T>, b: seq<T>)
    requires IsSubseq(a, b)
    ensures |a| <= |b|
    ensures forall i :: 0 <= i < |a| ==> a[i] in b
    decreases |b|
  {
    if a != [] {
      assert b == DropLast(b) + [Last(b)];
      if Last(a) == Last(b) && IsSubseq(DropLast(a), DropLast(b)) {
        SubseqBounds(DropLast(a), DropLast(b));
        assert a == DropLast(a) + [Last(a)];
      } else {
        SubseqBounds(a, DropLast(b));
      }
    }
  }
}

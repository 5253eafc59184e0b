/** Generic sequence operations behind the array `filter` and `map` calls of
    the application, with an independent characterisation of `filter`. */
module Seqs {

  /** Number of elements of `s` that satisfy `p`. */
  function CountIf<T>(s: seq<T>, p: T -> bool): (n: nat)
    ensures n <= |s|
    ensures n == |s| <==> forall i :: 0 <= i < |s| ==> p(s[i])
  {
    if s == [] then 0 else (if p(s[0]) then 1 else 0) + CountIf(s[1..], p)
  }

  /** `a` can be obtained from `b` by deleting elements (order is kept). */
  ghost predicate IsSubseq<T>(a: seq<T>, b: seq<T>)
    decreases |b|
  {
    if b == [] then a == []
    else IsSubseq(a, b[1..]) || (a != [] && a[0] == b[0] && IsSubseq(a[1..], b[1..]))
  }

  /** JavaScript's `Array.prototype.filter`: the elements satisfying `p`, in order. */
  function Keep<T>(s: seq<T>, p: T -> bool): (r: seq<T>)
    ensures IsSubseq(r, s)
    ensures forall i :: 0 <= i < |r| ==> p(r[i])
    ensures |r| == CountIf(s, p)
    ensures forall i :: 0 <= i < |s| && p(s[i]) ==> s[i] in r
  {
    if s == [] then []
    else if p(s[0]) then [s[0]] + Keep(s[1..], p)
    else Keep(s[1..], p)
  }

  /** JavaScript's `Array.prototype.map`. */
  function Map<A, B>(f: A -> B, s: seq<A>): (r: seq<B>)
    ensures |r| == |s|
    ensures forall i :: 0 <= i < |s| ==> r[i] == f(s[i])
  {
    if s == [] then [] else [f(s[0])] + Map(f, s[1..])
  }

  /** No two elements of `s` share a key. */
  ghost predicate DistinctBy<T, K>(s: seq<T>, key: T -> K)
  {
    forall i, j :: 0 <= i < j < |s| ==> key(s[i]) != key(s[j])
  }

  lemma {:induction false} SubseqReflexive<T>(s: seq<T>)
    ensures IsSubseq(s, s)
    decreases |s|
  {
    if s != [] {
      SubseqReflexive(s[1..]);
    }
  }

  /** Every element of a subsequence is an element of the sequence. */
  lemma {:induction false} SubseqContains<T>(a: seq<T>, b: seq<T>, i: nat)
    requires IsSubseq(a, b)
    requires i < |a|
    ensures a[i] in b
    decreases |b|
  {
    if IsSubseq(a, b[1..]) {
      SubseqContains(a, b[1..], i);
    } else if i > 0 {
      SubseqContains(a[1..], b[1..], i - 1);
    }
  }

  /** A subsequence of `s` made only of `p`-elements is no longer than the
      number of `p`-elements of `s`. */
  lemma {:induction false} SatisfyingSubseqIsShort<T>(r: seq<T>, s: seq<T>, p: T -> bool)
    requires IsSubseq(r, s)
    requires forall i :: 0 <= i < |r| ==> p(r[i])
    ensures |r| <= CountIf(s, p)
    decreases |s|
  {
    if s == [] {
    } else if IsSubseq(r, s[1..]) {
      SatisfyingSubseqIsShort(r, s[1..], p);
    } else {
      assert r != [] && r[0] == s[0] && IsSubseq(r[1..], s[1..]);
      assert p(r[0]);
      SatisfyingSubseqIsShort(r[1..], s[1..], p);
    }
  }

  /** `Keep(s, p)` is the ONLY subsequence of `s` that consists of
      `p`-elements and has as many elements as `s` has `p`-elements. */
  lemma {:induction false} KeepIsUnique<T>(r: seq<T>, s: seq<T>, p: T -> bool)
    requires IsSubseq(r, s)
    requires forall i :: 0 <= i < |r| ==> p(r[i])
    requires |r| == CountIf(s, p)
    ensures r == Keep(s, p)
    decreases |s|
  {
    if s == [] {
    } else if p(s[0]) {
      if IsSubseq(r, s[1..]) {
        SatisfyingSubseqIsShort(r, s[1..], p);
        assert false;
      }
      KeepIsUnique(r[1..], s[1..], p);
      assert r == [r[0]] + r[1..];
    } else {
      if !IsSubseq(r, s[1..]) {
        assert false;
      }
      KeepIsUnique(r, s[1..], p);
    }
  }

  /** Filtering with a predicate every element satisfies changes nothing. */
  lemma {:induction false} KeepAll<T>(s: seq<T>, p: T -> bool)
    requires forall i :: 0 <= i < |s| ==> p(s[i])
    ensures Keep(s, p) == s
    decreases |s|
  {
    if s != [] {
      KeepAll(s[1..], p);
    }
  }

  /** Filtering with a predicate no element satisfies leaves nothing. */
  lemma {:induction false} KeepNone<T>(s: seq<T>, p: T -> bool)
    requires forall i :: 0 <= i < |s| ==> !p(s[i])
    ensures Keep(s, p) == []
    decreases |s|
  {
    if s != [] {
      KeepNone(s[1..], p);
    }
  }

  /** Filtering is idempotent. */
  lemma KeepIdempotent<T>(s: seq<T>, p: T -> bool)
    ensures Keep(Keep(s, p), p) == Keep(s, p)
  {
    KeepAll(Keep(s, p), p);
  }

  /** Filtering an image with a predicate that agrees on images is the image
      of the filtered sequence. */
  lemma {:induction false} KeepCommutesWithMap<A, B>(s: seq<A>, f: A -> B, p: A -> bool, q: B -> bool)
    requires forall x :: q(f(x)) == p(x)
    ensures Keep(Map(f, s), q) == Map(f, Keep(s, p))
    decreases |s|
  {
    if s != [] {
      KeepCommutesWithMap(s[1..], f, p, q);
      assert Map(f, s)[1..] == Map(f, s[1..]);
    }
  }

  /** Filtering keeps keys distinct. */
  lemma {:induction false} KeepKeepsDistinct<T, K>(s: seq<T>, p: T -> bool, key: T -> K)
    requires DistinctBy(s, key)
    ensures DistinctBy(Keep(s, p), key)
    decreases |s|
  {
    if s != [] {
      var rest := Keep(s[1..], p);
      KeepKeepsDistinct(s[1..], p, key);
      if p(s[0]) {
        var r := [s[0]] + rest;
        forall i, j | 0 <= i < j < |r|
          ensures key(r[i]) != key(r[j])
        {
          if i == 0 {
            SubseqContains(rest, s[1..], j - 1);
            assert r[j] in s[1..];
            var k :| 0 <= k < |s[1..]| && s[1..][k] == r[j];
            assert s[k + 1] == r[j];
          } else {
            assert r[i] == rest[i - 1] && r[j] == rest[j - 1];
          }
        }
      }
    }
  }

  /** Every element satisfies exactly one of `p` and `q`, so their counts
      add up to the length. */
  lemma {:induction false} CountIfComplement<T>(s: seq<T>, p: T -> bool, q: T -> bool)
    requires forall x :: q(x) == !p(x)
    ensures CountIf(s, p) + CountIf(s, q) == |s|
    decreases |s|
  {
    if s != [] {
      CountIfComplement(s[1..], p, q);
    }
  }
}

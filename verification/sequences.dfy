/** Order-preserving selection and element-wise maps over sequences: the
    shape of a boolean-mask DataFrame filter and of a column `apply`. */
module Sequences {

  /** `a` is obtained from `b` by deleting elements, without reordering. */
  ghost predicate Subseq<T>(a: seq<T>, b: seq<T>)
    decreases |b|
  {
    |a| == 0 ||
    (|b| > 0 && ((a[0] == b[0] && Subseq(a[1..], b[1..])) || Subseq(a, b[1..])))
  }

  /** The elements of `s` satisfying `p`, in their original order. */
  function Select<T>(s: seq<T>, p: T -> bool): (r: seq<T>)
    ensures |r| <= |s|
    ensures forall k :: 0 <= k < |r| ==> r[k] in s && p(r[k])
    ensures forall k :: 0 <= k < |s| && p(s[k]) ==> s[k] in r
    decreases |s|
  {
    if |s| == 0 then []
    else if p(s[0]) then [s[0]] + Select(s[1..], p)
    else Select(s[1..], p)
  }

  /** `f` applied to every element, position by position. */
  function MapSeq<A, B>(s: seq<A>, f: A -> B): (r: seq<B>)
    ensures |r| == |s|
    ensures forall k :: 0 <= k < |s| ==> r[k] == f(s[k])
    decreases |s|
  {
    if |s| == 0 then [] else [f(s[0])] + MapSeq(s[1..], f)
  }

  lemma {:induction false} SubseqRefl<T>(s: seq<T>)
    ensures Subseq(s, s)
    decreases |s|
  {
    if |s| > 0 {
      SubseqRefl(s[1..]);
    }
  }

  /** Deleting elements never adds occurrences. */
  lemma {:induction false} SubseqMultiset<T>(a: seq<T>, b: seq<T>)
    requires Subseq(a, b)
    ensures multiset(a) <= multiset(b)
    decreases |b|
  {
    if |a| == 0 {
    } else if a[0] == b[0] && Subseq(a[1..], b[1..]) {
      SubseqMultiset(a[1..], b[1..]);
      assert a == [a[0]] + a[1..];
      assert b == [b[0]] + b[1..];
    } else {
      SubseqMultiset(a, b[1..]);
      assert b == [b[0]] + b[1..];
    }
  }

  /** Selection keeps relative order and duplicates nothing. */
  lemma {:induction false} SelectSubseq<T>(s: seq<T>, p: T -> bool)
    ensures Subseq(Select(s, p), s)
    decreases |s|
  {
    if |s| > 0 {
      SelectSubseq(s[1..], p);
    }
  }

  /** Each value occurs in the selection exactly as often as in `s` when it
      satisfies `p`, and not at all otherwise. */
  lemma {:induction false} SelectMultiplicity<T>(s: seq<T>, p: T -> bool, x: T)
    ensures multiset(Select(s, p))[x] == if p(x) then multiset(s)[x] else 0
    decreases |s|
  {
    if |s| > 0 {
      SelectMultiplicity(s[1..], p, x);
      assert s == [s[0]] + s[1..];
    }
  }

  /** Selection is the ONLY subsequence of `s` with those multiplicities:
      the order-preserving, duplicate-free reading of a mask filter pins
      the result down completely. */
  lemma {:induction false} SelectUnique<T>(s: seq<T>, p: T -> bool, t: seq<T>)
    requires Subseq(t, s)
    requires forall x :: multiset(t)[x] == if p(x) then multiset(s)[x] else 0
    ensures t == Select(s, p)
    decreases |s|
  {
    if |s| == 0 {
    } else {
      var h := s[0];
      assert s == [h] + s[1..];
      if p(h) {
        assert multiset(t)[h] == multiset(s)[h] > 0;
        assert |t| > 0;
        if t[0] == h && Subseq(t[1..], s[1..]) {
          assert t == [h] + t[1..];
          forall x
            ensures multiset(t[1..])[x] == if p(x) then multiset(s[1..])[x] else 0
          {
            assert multiset(t)[x] == multiset([h])[x] + multiset(t[1..])[x];
          }
          SelectUnique(s[1..], p, t[1..]);
        } else {
          SubseqMultiset(t, s[1..]);
          assert false;
        }
      } else {
        if |t| > 0 && t[0] == h {
          assert false;
        }
        assert Subseq(t, s[1..]);
        SelectUnique(s[1..], p, t);
      }
    }
  }

  /** Selecting with a predicate every element satisfies changes nothing. */
  lemma {:induction false} SelectAll<T>(s: seq<T>, p: T -> bool)
    requires forall k :: 0 <= k < |s| ==> p(s[k])
    ensures Select(s, p) == s
    decreases |s|
  {
    if |s| > 0 {
      SelectAll(s[1..], p);
      assert s == [s[0]] + s[1..];
    }
  }

  /** Selecting twice with the same predicate is selecting once. */
  lemma SelectIdempotent<T>(s: seq<T>, p: T -> bool)
    ensures Select(Select(s, p), p) == Select(s, p)
  {
    var r := Select(s, p);
    SelectAll(r, p);
  }

  /** Two selections commute. */
  lemma {:induction false} SelectCommute<T>(s: seq<T>, p: T -> bool, q: T -> bool)
    ensures Select(Select(s, p), q) == Select(Select(s, q), p)
    decreases |s|
  {
    if |s| > 0 {
      SelectCommute(s[1..], p, q);
    }
  }

  /** Two selections in a row are one selection with the conjunction. */
  lemma {:induction false} SelectFuse<T>(s: seq<T>, p: T -> bool, q: T -> bool, both: T -> bool)
    requires forall x :: both(x) == (p(x) && q(x))
    ensures Select(Select(s, p), q) == Select(s, both)
    decreases |s|
  {
    if |s| > 0 {
      SelectFuse(s[1..], p, q, both);
    }
  }

  /** Selecting with `p` and with its complement `q` splits `s`: the sizes
      add up and every occurrence lands on exactly one side. */
  lemma {:induction false} SelectPartition<T>(s: seq<T>, p: T -> bool, q: T -> bool)
    requires forall x :: q(x) == !p(x)
    ensures |Select(s, p)| + |Select(s, q)| == |s|
    ensures multiset(Select(s, p)) + multiset(Select(s, q)) == multiset(s)
    decreases |s|
  {
    if |s| > 0 {
      SelectPartition(s[1..], p, q);
      assert s == [s[0]] + s[1..];
    }
  }

  /** Mapping respects deletion: the image of a subsequence is a
      subsequence of the image. */
  lemma {:induction false} MapSubseq<A, B>(a: seq<A>, b: seq<A>, f: A -> B)
    requires Subseq(a, b)
    ensures Subseq(MapSeq(a, f), MapSeq(b, f))
    decreases |b|
  {
    if |a| == 0 {
    } else if a[0] == b[0] && Subseq(a[1..], b[1..]) {
      MapSubseq(a[1..], b[1..], f);
    } else {
      MapSubseq(a, b[1..], f);
    }
  }

  /** Mapping the two sides of a partition partitions the image. */
  lemma {:induction false} MapSelectPartition<A, B>(s: seq<A>, p: A -> bool, q: A -> bool, f: A -> B)
    requires forall x :: q(x) == !p(x)
    ensures multiset(MapSeq(Select(s, p), f)) + multiset(MapSeq(Select(s, q), f))
            == multiset(MapSeq(s, f))
    decreases |s|
  {
    if |s| > 0 {
      MapSelectPartition(s[1..], p, q, f);
      assert MapSeq(s, f) == [f(s[0])] + MapSeq(s[1..], f);
    }
  }

  /** The image of a selection holds the image of every selected element,
      and nothing but such images. */
  lemma MapSelectMembers<A, B>(s: seq<A>, p: A -> bool, f: A -> B)
    ensures forall k :: 0 <= k < |s| && p(s[k]) ==> f(s[k]) in MapSeq(Select(s, p), f)
    ensures forall j :: 0 <= j < |MapSeq(Select(s, p), f)| ==>
              exists k :: 0 <= k < |s| && p(s[k]) && f(s[k]) == MapSeq(Select(s, p), f)[j]
  {
    var sel := Select(s, p);
    var img := MapSeq(sel, f);
    forall k | 0 <= k < |s| && p(s[k])
      ensures f(s[k]) in img
    {
      var j :| 0 <= j < |sel| && sel[j] == s[k];
      assert img[j] == f(s[k]);
    }
    forall j | 0 <= j < |img|
      ensures exists k :: 0 <= k < |s| && p(s[k]) && f(s[k]) == img[j]
    {
      var k :| 0 <= k < |s| && s[k] == sel[j];
      assert p(s[k]) && f(s[k]) == img[j];
    }
  }
}

/**
  * Boolean-mask selection over an ordered table (`df[mask]`), the row
  * indices it keeps, and sums over rows.
  */
module Seqs {

  /** The elements of `s` that satisfy `p`, in their original order. */
  function Where<T>(s: seq<T>, p: T -> bool): (r: seq<T>)
    ensures |r| <= |s|
  {
    if s == [] then []
    else Where(s[..|s| - 1], p) + (if p(s[|s| - 1]) then [s[|s| - 1]] else [])
  }

  /** The positions of `s` whose element satisfies `p`, ascending. */
  function Kept<T>(s: seq<T>, p: T -> bool): seq<nat> {
    if s == [] then []
    else Kept(s[..|s| - 1], p) + (if p(s[|s| - 1]) then [|s| - 1] else [])
  }

  predicate StrictlyIncreasing(ix: seq<nat>) {
    forall a, b :: 0 <= a < b < |ix| ==> ix[a] < ix[b]
  }

  /** `Where(s, p)` lists, in increasing order, exactly the elements at the
      positions of `s` that satisfy `p`: an order-preserving subsequence that
      keeps a position iff the predicate holds there. */
  lemma {:induction false} WhereIndices<T>(s: seq<T>, p: T -> bool)
    ensures var r, ix := Where(s, p), Kept(s, p);
      && |ix| == |r|
      && StrictlyIncreasing(ix)
      && (forall k :: 0 <= k < |ix| ==> ix[k] < |s| && r[k] == s[ix[k]])
      && (forall i :: 0 <= i < |s| ==> (i in ix <==> p(s[i])))
  {
    if s != [] {
      var init := s[..|s| - 1];
      WhereIndices(init, p);
      var ix := Kept(s, p);
      forall i | 0 <= i < |s| ensures i in ix <==> p(s[i]) {
        if i < |s| - 1 {
          assert s[i] == init[i];
        }
      }
    }
  }

  /** The elements kept by `Where` are exactly the elements of `s` that
      satisfy `p`. */
  lemma {:induction false} WhereMembers<T>(s: seq<T>, p: T -> bool, x: T)
    ensures x in Where(s, p) <==> x in s && p(x)
  {
    if s != [] {
      WhereMembers(s[..|s| - 1], p, x);
      assert s == s[..|s| - 1] + [s[|s| - 1]];
    }
  }

  /** Selection keeps everything iff everything satisfies the predicate. */
  lemma {:induction false} WhereIdentity<T>(s: seq<T>, p: T -> bool)
    ensures Where(s, p) == s <==> forall i :: 0 <= i < |s| ==> p(s[i])
  {
    if s != [] {
      var init := s[..|s| - 1];
      WhereIdentity(init, p);
      assert s == init + [s[|s| - 1]];
      if Where(s, p) == s {
        assert p(s[|s| - 1]);
        assert Where(init, p) == init;
      }
    }
  }

  /** A strictly increasing list of `n` positions below `n` is every position. */
  lemma {:induction false} KeptAll(ix: seq<nat>, n: nat)
    requires |ix| == n && StrictlyIncreasing(ix)
    requires forall k :: 0 <= k < |ix| ==> ix[k] < n
    ensures forall i :: 0 <= i < n ==> i in ix
  {
    if n > 0 {
      var init := ix[..n - 1];
      assert ix[n - 1] == n - 1 by {
        IncreasingAtLeast(ix);
      }
      forall k | 0 <= k < n - 1 ensures init[k] < n - 1 {
        assert ix[k] < ix[n - 1];
      }
      KeptAll(init, n - 1);
      forall i | 0 <= i < n ensures i in ix {
        if i < n - 1 {
          assert i in init;
        } else {
          assert ix[n - 1] == i;
        }
      }
    }
  }

  /** The k-th of strictly increasing positions is at least k. */
  lemma {:induction false} IncreasingAtLeast(ix: seq<nat>)
    requires StrictlyIncreasing(ix)
    ensures forall k :: 0 <= k < |ix| ==> ix[k] >= k
  {
    if ix != [] {
      var init := ix[..|ix| - 1];
      IncreasingAtLeast(init);
      assert forall k :: 0 <= k < |init| ==> ix[k] == init[k];
      if |ix| > 1 {
        assert ix[|ix| - 2] < ix[|ix| - 1];
      }
    }
  }

  /** A selection keeps as many elements as there are iff every element
      satisfies the predicate. */
  lemma WhereKeepsAll<T>(s: seq<T>, p: T -> bool)
    ensures |Where(s, p)| == |s| <==> forall i :: 0 <= i < |s| ==> p(s[i])
  {
    WhereIdentity(s, p);
    if |Where(s, p)| == |s| {
      WhereIndices(s, p);
      KeptAll(Kept(s, p), |s|);
    }
  }

  /** Two predicates that agree on the elements select the same elements. */
  lemma {:induction false} WhereExt<T>(s: seq<T>, p: T -> bool, q: T -> bool)
    requires forall i :: 0 <= i < |s| ==> p(s[i]) == q(s[i])
    ensures Where(s, p) == Where(s, q)
  {
    if s != [] {
      WhereExt(s[..|s| - 1], p, q);
    }
  }

  /** Selecting by `p` and then by `q` selects by their conjunction. */
  lemma {:induction false} WhereWhere<T>(s: seq<T>, p: T -> bool, q: T -> bool, pq: T -> bool)
    requires forall i :: 0 <= i < |s| ==> pq(s[i]) == (p(s[i]) && q(s[i]))
    ensures Where(Where(s, p), q) == Where(s, pq)
  {
    if s != [] {
      var init := s[..|s| - 1];
      var last := s[|s| - 1];
      WhereWhere(init, p, q, pq);
      var w := Where(init, p);
      if p(last) {
        assert (w + [last])[..|w + [last]| - 1] == w;
      } else {
        assert Where(s, p) == w;
      }
    }
  }

  /** Selections commute: their order does not change the result. */
  lemma WhereCommutes<T>(s: seq<T>, p: T -> bool, q: T -> bool)
    ensures Where(Where(s, p), q) == Where(Where(s, q), p)
  {
    var pq := x => p(x) && q(x);
    WhereWhere(s, p, q, pq);
    WhereWhere(s, q, p, pq);
  }

  /** Selecting twice by the same predicate is selecting once. */
  lemma WhereIdempotent<T>(s: seq<T>, p: T -> bool)
    ensures Where(Where(s, p), p) == Where(s, p)
  {
    WhereWhere(s, p, p, p);
  }

  /** The sum of `w` over the elements of `s` (pandas' `sum`). */
  function Sum<T>(s: seq<T>, w: T -> int): int {
    if s == [] then 0 else Sum(s[..|s| - 1], w) + w(s[|s| - 1])
  }

  /** Adding one element at the end adds its weight. */
  lemma SumSnoc<T>(a: seq<T>, x: T, w: T -> int)
    ensures Sum(a + [x], w) == Sum(a, w) + w(x)
  {
    assert (a + [x])[..|a|] == a;
  }

  /** The rows a selection keeps and the rows it drops add up to the whole. */
  lemma {:induction false} SumPartition<T>(s: seq<T>, w: T -> int, p: T -> bool, notP: T -> bool)
    requires forall i :: 0 <= i < |s| ==> notP(s[i]) == !p(s[i])
    ensures Sum(Where(s, p), w) + Sum(Where(s, notP), w) == Sum(s, w)
  {
    if s != [] {
      var init := s[..|s| - 1];
      var last := s[|s| - 1];
      SumPartition(init, w, p, notP);
      var a, b := Where(init, p), Where(init, notP);
      assert Sum(s, w) == Sum(init, w) + w(last);
      if p(last) {
        assert Where(s, p) == a + [last];
        SumSnoc(a, last, w);
        assert Where(s, notP) == b;
      } else {
        assert Where(s, notP) == b + [last];
        SumSnoc(b, last, w);
        assert Where(s, p) == a;
      }
    }
  }

  /** With no negative weight, a selection's sum lies between 0 and the
      whole sum. */
  lemma {:induction false} SumWhereBound<T>(s: seq<T>, w: T -> int, p: T -> bool)
    requires forall i :: 0 <= i < |s| ==> w(s[i]) >= 0
    ensures 0 <= Sum(Where(s, p), w) <= Sum(s, w)
  {
    if s != [] {
      var init := s[..|s| - 1];
      var last := s[|s| - 1];
      assert forall i :: 0 <= i < |init| ==> init[i] == s[i];
      assert w(last) >= 0;
      SumWhereBound(init, w, p);
      var a := Where(init, p);
      assert Sum(s, w) == Sum(init, w) + w(last);
      if p(last) {
        assert Where(s, p) == a + [last] && (a + [last])[..|a|] == a;
        assert Sum(Where(s, p), w) == Sum(a, w) + w(last);
      } else {
        assert Where(s, p) == a;
      }
    }
  }

  /** Weights that agree on the elements give the same sum. */
  lemma {:induction false} SumExt<T>(s: seq<T>, f: T -> int, g: T -> int)
    requires forall i :: 0 <= i < |s| ==> f(s[i]) == g(s[i])
    ensures Sum(s, f) == Sum(s, g)
  {
    if s != [] {
      SumExt(s[..|s| - 1], f, g);
    }
  }

  /** Summing a pointwise sum of weights is adding the sums. */
  lemma {:induction false} SumAdd<T>(s: seq<T>, f: T -> int, g: T -> int, h: T -> int)
    requires forall i :: 0 <= i < |s| ==> h(s[i]) == f(s[i]) + g(s[i])
    ensures Sum(s, h) == Sum(s, f) + Sum(s, g)
  {
    if s != [] {
      SumAdd(s[..|s| - 1], f, g, h);
    }
  }

  /** A pointwise smaller weight gives a smaller sum. */
  lemma {:induction false} SumMono<T>(s: seq<T>, f: T -> int, g: T -> int)
    requires forall i :: 0 <= i < |s| ==> f(s[i]) <= g(s[i])
    ensures Sum(s, f) <= Sum(s, g)
  {
    if s != [] {
      SumMono(s[..|s| - 1], f, g);
    }
  }

  lemma {:induction false} SumNonNegative<T>(s: seq<T>, w: T -> int)
    requires forall i :: 0 <= i < |s| ==> w(s[i]) >= 0
    ensures Sum(s, w) >= 0
  {
    if s != [] {
      SumNonNegative(s[..|s| - 1], w);
    }
  }

  /** The sum taken from the front. */
  lemma {:induction false} SumCons<T>(x: T, s: seq<T>, w: T -> int)
    ensures Sum([x] + s, w) == w(x) + Sum(s, w)
  {
    if s != [] {
      assert ([x] + s)[..|[x] + s| - 1] == [x] + s[..|s| - 1];
      SumCons(x, s[..|s| - 1], w);
    } else {
      assert [x] + s == [x] && [x][..0] == [];
    }
  }

  /** With no negative weight, a prefix sums to no more than the whole. */
  lemma {:induction false} SumPrefix<T>(s: seq<T>, k: nat, w: T -> int)
    requires k <= |s|
    requires forall i :: 0 <= i < |s| ==> w(s[i]) >= 0
    ensures Sum(s[..k], w) <= Sum(s, w)
  {
    if k < |s| {
      SumPrefix(s[..|s| - 1], k, w);
      assert s[..|s| - 1][..k] == s[..k];
    } else {
      assert s[..k] == s;
    }
  }
}

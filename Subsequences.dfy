/** Order-preserving selection from a sequence, the shape shared by the list
    comprehensions and append-in-a-loop filters of the viewer. */
module Subsequences {

  /** The elements of `xs` that satisfy `p`, in their order in `xs`. */
  function Keep<T>(xs: seq<T>, p: T -> bool): (r: seq<T>)
    ensures |r| <= |xs|
    ensures forall j :: 0 <= j < |r| ==> p(r[j])
  {
    if xs == [] then []
    else
      var init := Keep(xs[..|xs| - 1], p);
      if p(xs[|xs| - 1]) then init + [xs[|xs| - 1]] else init
  }

  /** One more element: kept at the end when it satisfies `p`. */
  lemma KeepSnoc<T>(xs: seq<T>, x: T, p: T -> bool)
    ensures Keep(xs + [x], p) == if p(x) then Keep(xs, p) + [x] else Keep(xs, p)
  {
    assert (xs + [x])[..|xs|] == xs;
  }

  /** One more element in front: kept at the front when it satisfies `p`. */
  lemma KeepCons<T>(x: T, xs: seq<T>, p: T -> bool)
    ensures Keep([x] + xs, p) == if p(x) then [x] + Keep(xs, p) else Keep(xs, p)
  {
    KeepAppend([x], xs, p);
    var none: seq<T> := [];
    assert [x][..0] == none;
  }

  lemma AppendAssoc<T>(a: seq<T>, b: seq<T>, c: seq<T>)
    ensures a + (b + c) == (a + b) + c
  {
  }

  /** Selection distributes over concatenation. */
  lemma {:induction false} KeepAppend<T>(a: seq<T>, b: seq<T>, p: T -> bool)
    ensures Keep(a + b, p) == Keep(a, p) + Keep(b, p)
    decreases |b|
  {
    if b == [] {
      assert a + b == a;
    } else {
      var b' := b[..|b| - 1];
      var x := b[|b| - 1];
      assert (a + b)[..|a + b| - 1] == a + b';
      assert (a + b)[|a + b| - 1] == x;
      KeepAppend(a, b', p);
    }
  }

  /** When every element satisfies `p`, nothing is dropped. */
  lemma {:induction false} KeepAll<T>(xs: seq<T>, p: T -> bool)
    requires forall i :: 0 <= i < |xs| ==> p(xs[i])
    ensures Keep(xs, p) == xs
  {
    if xs != [] {
      var n := |xs| - 1;
      KeepAll(xs[..n], p);
      assert xs == xs[..n] + [xs[n]];
    }
  }

  /** Where each kept element came from: the selected positions, increasing,
      are exactly the positions whose element satisfies `p`. */
  lemma {:induction false} KeepTrace<T>(xs: seq<T>, p: T -> bool) returns (idx: seq<nat>)
    ensures |idx| == |Keep(xs, p)|
    ensures forall j :: 0 <= j < |idx| ==> idx[j] < |xs| && xs[idx[j]] == Keep(xs, p)[j]
    ensures forall j, k :: 0 <= j < k < |idx| ==> idx[j] < idx[k]
    ensures forall i :: 0 <= i < |xs| ==> (i in idx <==> p(xs[i]))
  {
    if xs == [] {
      idx := [];
    } else {
      var n := |xs| - 1;
      var init := xs[..n];
      var pre := KeepTrace(init, p);
      var r := Keep(init, p);
      assert forall i :: 0 <= i < n ==> xs[i] == init[i];
      if p(xs[n]) {
        assert Keep(xs, p) == r + [xs[n]];
        idx := pre + [n];
        forall i | 0 <= i < |xs| ensures i in idx <==> p(xs[i]) {
          if i < n {
            assert i in idx <==> i in pre;
          }
        }
      } else {
        assert Keep(xs, p) == r;
        idx := pre;
        forall i | 0 <= i < |xs| ensures i in idx <==> p(xs[i]) {
          if i == n {
            assert n !in pre;
          }
        }
      }
    }
  }

  /** Every kept element is an element of the input. */
  lemma KeepSubset<T>(xs: seq<T>, p: T -> bool)
    ensures forall x :: x in Keep(xs, p) ==> x in xs && p(x)
  {
    var idx := KeepTrace(xs, p);
    forall x | x in Keep(xs, p) ensures x in xs {
      var j :| 0 <= j < |Keep(xs, p)| && Keep(xs, p)[j] == x;
      assert xs[idx[j]] == x;
    }
  }

  /** Every element of the input that satisfies `p` is kept. */
  lemma KeepComplete<T>(xs: seq<T>, p: T -> bool)
    ensures forall x :: x in xs && p(x) ==> x in Keep(xs, p)
  {
    var idx := KeepTrace(xs, p);
    forall x | x in xs && p(x) ensures x in Keep(xs, p) {
      var i :| 0 <= i < |xs| && xs[i] == x;
      assert i in idx;
      var j :| 0 <= j < |idx| && idx[j] == i;
      assert Keep(xs, p)[j] == x;
    }
  }

  /** No element occurs twice. */
  ghost predicate Distinct<T>(xs: seq<T>) {
    forall i, j :: 0 <= i < j < |xs| ==> xs[i] != xs[j]
  }

  /** Selection keeps the elements distinct. */
  lemma KeepDistinct<T>(xs: seq<T>, p: T -> bool)
    requires Distinct(xs)
    ensures Distinct(Keep(xs, p))
  {
    var idx := KeepTrace(xs, p);
  }

  /** In a sequence without repetitions every element counts once. */
  lemma {:induction false} DistinctCount<T>(xs: seq<T>, x: T)
    requires Distinct(xs)
    ensures multiset(xs)[x] <= 1
  {
    if xs != [] {
      var n := |xs| - 1;
      assert xs == xs[..n] + [xs[n]];
      DistinctCount(xs[..n], x);
      if xs[n] == x {
        assert x !in xs[..n];
      }
    }
  }

  /** An element at two positions counts at least twice. */
  lemma RepeatedCount<T>(xs: seq<T>, i: nat, j: nat)
    requires i < j < |xs| && xs[i] == xs[j]
    ensures multiset(xs)[xs[i]] >= 2
  {
    assert xs == xs[..i] + [xs[i]] + xs[i + 1..j] + [xs[j]] + xs[j + 1..];
  }

  /** A rearrangement of a sequence without repetitions has none. */
  lemma DistinctPermutation<T>(xs: seq<T>, ys: seq<T>)
    requires Distinct(xs) && multiset(xs) == multiset(ys)
    ensures Distinct(ys)
  {
    forall i, j | 0 <= i < j < |ys| ensures ys[i] != ys[j] {
      if ys[i] == ys[j] {
        RepeatedCount(ys, i, j);
        DistinctCount(xs, ys[i]);
      }
    }
  }
}

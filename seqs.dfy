/**
 * `Array.prototype.filter` and the facts about it that the pipeline relies on:
 * a filter keeps exactly the elements satisfying its predicate, with their
 * multiplicities, in their original order.
 */
module Seqs {
  import opened Wrappers

  /** `xs.filter(p)`. */
  function Filter<T(!new)>(xs: seq<T>, p: T -> bool): (r: seq<T>)
    ensures |r| <= |xs|
    ensures forall x :: x in r <==> x in xs && p(x)
  {
    if xs == [] then []
    else
      var init := Filter(xs[..|xs| - 1], p);
      var last := xs[|xs| - 1];
      assert xs == xs[..|xs| - 1] + [last];
      if p(last) then init + [last] else init
  }

  /** `r` can be obtained from `xs` by deleting elements, without reordering the rest. */
  predicate IsSubsequence<T(==)>(r: seq<T>, xs: seq<T>)
    decreases |xs|
  {
    || r == []
    || (&& xs != []
        && (|| (r[|r| - 1] == xs[|xs| - 1] && IsSubsequence(r[..|r| - 1], xs[..|xs| - 1]))
            || IsSubsequence(r, xs[..|xs| - 1])))
  }

  /** A reference description of a filter, independent of how it is computed. */
  ghost predicate IsFilterOf<T>(r: seq<T>, xs: seq<T>, p: T -> bool) {
    && IsSubsequence(r, xs)
    && (forall x :: x in r ==> p(x))
    && (forall x :: x in xs && p(x) ==> multiset(r)[x] == multiset(xs)[x])
  }

  lemma {:induction false} SubsequenceReflexive<T>(xs: seq<T>)
    ensures IsSubsequence(xs, xs)
  {
    if xs != [] {
      SubsequenceReflexive(xs[..|xs| - 1]);
    }
  }

  lemma {:induction false} SubsequenceTransitive<T>(a: seq<T>, b: seq<T>, c: seq<T>)
    requires IsSubsequence(a, b) && IsSubsequence(b, c)
    ensures IsSubsequence(a, c)
    decreases |c|
  {
    if a != [] {
      var c' := c[..|c| - 1];
      if IsSubsequence(b, c') {
        SubsequenceTransitive(a, b, c');
      } else {
        var b' := b[..|b| - 1];
        if a[|a| - 1] == b[|b| - 1] && IsSubsequence(a[..|a| - 1], b') {
          SubsequenceTransitive(a[..|a| - 1], b', c');
        } else {
          SubsequenceTransitive(a, b', c');
        }
      }
    }
  }

  /** A subsequence holds nothing its sequence does not. */
  lemma {:induction false} SubsequenceMembers<T>(r: seq<T>, xs: seq<T>)
    requires IsSubsequence(r, xs)
    ensures forall x :: x in r ==> x in xs
    decreases |xs|
  {
    if r != [] {
      var xs' := xs[..|xs| - 1];
      if r[|r| - 1] == xs[|xs| - 1] && IsSubsequence(r[..|r| - 1], xs') {
        SubsequenceMembers(r[..|r| - 1], xs');
        assert r == r[..|r| - 1] + [r[|r| - 1]];
      } else {
        SubsequenceMembers(r, xs');
      }
      assert forall x :: x in xs' ==> x in xs;
    }
  }

  /** Filtering keeps the order of what it keeps. */
  lemma {:induction false} FilterIsSubsequence<T(!new)>(xs: seq<T>, p: T -> bool)
    ensures IsSubsequence(Filter(xs, p), xs)
  {
    if xs != [] {
      var init := xs[..|xs| - 1];
      FilterIsSubsequence(init, p);
      if p(xs[|xs| - 1]) {
        assert Filter(xs, p)[..|Filter(xs, p)| - 1] == Filter(init, p);
      }
    }
  }

  /** Filtering keeps every kept element as often as it occurs and drops every other one. */
  lemma {:induction false} FilterMultiplicity<T(!new)>(xs: seq<T>, p: T -> bool, x: T)
    ensures multiset(Filter(xs, p))[x] == if p(x) then multiset(xs)[x] else 0
  {
    if xs != [] {
      var init := xs[..|xs| - 1];
      FilterMultiplicity(init, p, x);
      assert xs == init + [xs[|xs| - 1]];
    }
  }

  /** `Filter` meets the reference description. */
  lemma FilterMeetsReference<T(!new)>(xs: seq<T>, p: T -> bool)
    ensures IsFilterOf(Filter(xs, p), xs, p)
  {
    FilterIsSubsequence(xs, p);
    forall x | x in xs && p(x)
      ensures multiset(Filter(xs, p))[x] == multiset(xs)[x]
    {
      FilterMultiplicity(xs, p, x);
    }
  }

  /** Filtering one more element at the end. */
  lemma FilterSnoc<T(!new)>(xs: seq<T>, x: T, p: T -> bool)
    ensures Filter(xs + [x], p) == Filter(xs, p) + (if p(x) then [x] else [])
  {
    assert (xs + [x])[..|xs + [x]| - 1] == xs;
  }

  /** A sequence is its prefix followed by the rest. */
  lemma SplitAt<T>(xs: seq<T>, n: nat)
    requires n <= |xs|
    ensures xs[..n] + xs[n..] == xs
  {
  }

  /** The prefix one longer is the prefix and the next element. */
  lemma PrefixSnoc<T>(xs: seq<T>, i: nat)
    requires i < |xs|
    ensures xs[..i + 1] == xs[..i] + [xs[i]]
  {
  }

  /** A non-empty sequence is its initial part and its last element. */
  lemma InitLast<T>(xs: seq<T>)
    requires xs != []
    ensures xs == xs[..|xs| - 1] + [xs[|xs| - 1]]
  {
  }

  /** Dropping the appended element gives the sequence back. */
  lemma SnocInit<T>(xs: seq<T>, x: T)
    ensures (xs + [x])[..|xs|] == xs
  {
  }

  /** The prefix of full length is the whole sequence. */
  lemma PrefixFull<T>(xs: seq<T>)
    ensures xs[..|xs|] == xs
  {
  }

  /** A slice of a slice is a slice of the whole. */
  lemma SliceOfSlice<T>(xs: seq<T>, p: nat, e: nat, a: nat, b: nat)
    requires p <= e <= |xs| && a <= b <= e - p
    ensures xs[p..e][a..b] == xs[p + a..p + b]
  {
    forall i | 0 <= i < b - a
      ensures xs[p..e][a..b][i] == xs[p + a..p + b][i]
    {
    }
  }

  /** A filter whose predicate holds everywhere returns its input. */
  lemma {:induction false} FilterAll<T(!new)>(xs: seq<T>, p: T -> bool)
    requires forall x :: x in xs ==> p(x)
    ensures Filter(xs, p) == xs
  {
    if xs != [] {
      FilterAll(xs[..|xs| - 1], p);
      assert xs == xs[..|xs| - 1] + [xs[|xs| - 1]];
    }
  }

  /** A filter whose predicate fails everywhere returns nothing. */
  lemma {:induction false} FilterNone<T(!new)>(xs: seq<T>, p: T -> bool)
    requires forall k :: 0 <= k < |xs| ==> !p(xs[k])
    ensures Filter(xs, p) == []
  {
    if xs != [] {
      FilterNone(xs[..|xs| - 1], p);
    }
  }

  /** The first kept element is the first element that passes the predicate. */
  lemma {:induction false} FilterHead<T(!new)>(xs: seq<T>, p: T -> bool, i: nat)
    requires i < |xs| && p(xs[i])
    requires forall j :: 0 <= j < i ==> !p(xs[j])
    ensures Filter(xs, p) != [] && Filter(xs, p)[0] == xs[i]
  {
    var init, last := xs[..|xs| - 1], xs[|xs| - 1];
    if i < |init| {
      FilterHead(init, p, i);
    } else {
      FilterNone(init, p);
    }
  }

  /** Filtering a concatenation filters each part. */
  lemma {:induction false} FilterAppend<T(!new)>(xs: seq<T>, ys: seq<T>, p: T -> bool)
    ensures Filter(xs + ys, p) == Filter(xs, p) + Filter(ys, p)
    decreases |ys|
  {
    if ys == [] {
      assert xs + ys == xs;
    } else {
      var ys', last := ys[..|ys| - 1], ys[|ys| - 1];
      assert ys == ys' + [last];
      assert xs + ys == (xs + ys') + [last];
      FilterAppend(xs, ys', p);
      FilterSnoc(xs + ys', last, p);
      FilterSnoc(ys', last, p);
      if p(last) {
        calc {
          Filter(xs + ys, p);
          Filter(xs + ys', p) + [last];
          (Filter(xs, p) + Filter(ys', p)) + [last];
          Filter(xs, p) + (Filter(ys', p) + [last]);
          Filter(xs, p) + Filter(ys, p);
        }
      }
    }
  }

  /** `xs.map(f).filter(Boolean)` for an `f` that returns a value or `null`. */
  function FilterMap<A, B>(xs: seq<A>, f: A -> Option<B>): (r: seq<B>)
    ensures |r| <= |xs|
  {
    if xs == [] then []
    else
      var init := FilterMap(xs[..|xs| - 1], f);
      match f(xs[|xs| - 1])
      case None => init
      case Some(y) => init + [y]
  }

  /** The kept values are exactly the non-null images; nothing is kept exactly when every image is null. */
  lemma {:induction false} FilterMapMembers<A, B>(xs: seq<A>, f: A -> Option<B>)
    ensures forall y :: y in FilterMap(xs, f) <==> exists i :: 0 <= i < |xs| && f(xs[i]) == Some(y)
    ensures |FilterMap(xs, f)| == 0 <==> forall i :: 0 <= i < |xs| ==> f(xs[i]).None?
  {
    if xs != [] {
      var init := xs[..|xs| - 1];
      FilterMapMembers(init, f);
      assert forall i :: 0 <= i < |init| ==> init[i] == xs[i];
    }
  }

  /** The image of one element: its value when it has one, nothing otherwise. */
  lemma FilterMapSingle<A, B>(x: A, f: A -> Option<B>)
    ensures FilterMap([x], f) == if f(x).Some? then [f(x).value] else []
  {
    assert [x][..0] == [];
  }

  /** Mapping and filtering a concatenation does each part in turn, which fixes order and repetitions. */
  lemma {:induction false} FilterMapAppend<A, B>(xs: seq<A>, ys: seq<A>, f: A -> Option<B>)
    ensures FilterMap(xs + ys, f) == FilterMap(xs, f) + FilterMap(ys, f)
    decreases |ys|
  {
    if ys == [] {
      assert xs + ys == xs;
    } else {
      var ys', last := ys[..|ys| - 1], ys[|ys| - 1];
      assert (xs + ys)[..|xs + ys| - 1] == xs + ys';
      FilterMapAppend(xs, ys', f);
      if f(last).Some? {
        calc {
          FilterMap(xs + ys, f);
          FilterMap(xs + ys', f) + [f(last).value];
          (FilterMap(xs, f) + FilterMap(ys', f)) + [f(last).value];
          FilterMap(xs, f) + (FilterMap(ys', f) + [f(last).value]);
          FilterMap(xs, f) + FilterMap(ys, f);
        }
      }
    }
  }
}

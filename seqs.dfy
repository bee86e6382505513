/** Sequence helpers: the `reverse`, `filter` and `slice` operations the tail
    algorithm applies to arrays of lines, with the algebra the proofs need. */
module Seqs {

  /** `xs.reverse()` */
  function Reverse<T>(xs: seq<T>): (r: seq<T>)
    ensures |r| == |xs|
    ensures forall i :: 0 <= i < |xs| ==> r[i] == xs[|xs| - 1 - i]
  {
    if xs == [] then [] else Reverse(xs[1..]) + [xs[0]]
  }

  lemma {:induction false} ReverseConcat<T>(xs: seq<T>, ys: seq<T>)
    ensures Reverse(xs + ys) == Reverse(ys) + Reverse(xs)
  {
    // both sides have the same length and the same elements, by Reverse's contract
  }

  /** `xs.filter(p)`: the elements of `xs` satisfying `p`, in order. The order is
      pinned by FilterConcat and FilterSingleton; FilterMember and FilterMultiset
      say that nothing else comes in. */
  function Filter<T>(p: T -> bool, xs: seq<T>): (r: seq<T>)
    ensures |r| <= |xs|
    ensures forall i :: 0 <= i < |r| ==> p(r[i])
  {
    if xs == [] then []
    else if p(xs[0]) then [xs[0]] + Filter(p, xs[1..])
    else Filter(p, xs[1..])
  }

  /** Every element of `xs` that satisfies `p` is kept. */
  lemma {:induction false} FilterKeeps<T>(p: T -> bool, xs: seq<T>, x: T)
    requires x in xs && p(x)
    ensures x in Filter(p, xs)
  {
    if xs[0] != x {
      assert x in xs[1..];
      FilterKeeps(p, xs[1..], x);
    }
  }

  /** On one element the filter keeps it exactly when it passes. */
  lemma FilterSingleton<T>(p: T -> bool, x: T)
    ensures Filter(p, [x]) == if p(x) then [x] else []
  {
    assert [x][1..] == [];
  }

  /** Each element is kept at most as often as it occurs in `xs`. */
  lemma {:induction false} FilterMultiset<T>(p: T -> bool, xs: seq<T>)
    ensures multiset(Filter(p, xs)) <= multiset(xs)
  {
    if xs != [] {
      FilterMultiset(p, xs[1..]);
      assert xs == [xs[0]] + xs[1..];
    }
  }

  /** An element is kept exactly when it is in `xs` and passes. */
  lemma FilterMember<T>(p: T -> bool, xs: seq<T>, x: T)
    ensures x in Filter(p, xs) <==> x in xs && p(x)
  {
    if x in Filter(p, xs) {
      FilterMultiset(p, xs);
      assert x in multiset(Filter(p, xs));
    } else if x in xs && p(x) {
      FilterKeeps(p, xs, x);
    }
  }

  lemma {:induction false} FilterConcat<T>(p: T -> bool, xs: seq<T>, ys: seq<T>)
    ensures Filter(p, xs + ys) == Filter(p, xs) + Filter(p, ys)
  {
    if xs == [] {
      assert xs + ys == ys;
    } else {
      assert (xs + ys)[0] == xs[0];
      assert (xs + ys)[1..] == xs[1..] + ys;
      FilterConcat(p, xs[1..], ys);
    }
  }

  lemma {:induction false} FilterReverse<T>(p: T -> bool, xs: seq<T>)
    ensures Filter(p, Reverse(xs)) == Reverse(Filter(p, xs))
  {
    if xs != [] {
      assert xs == [xs[0]] + xs[1..];
      FilterReverse(p, xs[1..]);
      FilterConcat(p, Reverse(xs[1..]), [xs[0]]);
      FilterConcat(p, [xs[0]], xs[1..]);
      ReverseConcat(Filter(p, [xs[0]]), Filter(p, xs[1..]));
      assert Reverse(Filter(p, [xs[0]])) == Filter(p, [xs[0]]);
    }
  }

  /** Filtering by `p` after filtering by `q` is filtering by `p` alone
      when every element satisfying `p` satisfies `q`. */
  lemma {:induction false} FilterAbsorb<T>(p: T -> bool, q: T -> bool, xs: seq<T>)
    requires forall x :: p(x) ==> q(x)
    ensures Filter(p, Filter(q, xs)) == Filter(p, xs)
  {
    if xs != [] {
      FilterAbsorb(p, q, xs[1..]);
    }
  }

  /** The first `n` elements, or all of them when there are fewer: the closed form
      of pushing entries while fewer than `n` have been collected. */
  function Take<T>(n: nat, xs: seq<T>): (r: seq<T>)
    ensures |r| == if n <= |xs| then n else |xs|
    ensures r <= xs
  {
    if n <= |xs| then xs[..n] else xs
  }

  lemma TakeTake<T>(n: nat, xs: seq<T>, ys: seq<T>)
    ensures Take(n, Take(n, xs) + ys) == Take(n, xs + ys)
  {
    if n <= |xs| {
      assert (xs[..n] + ys)[..n] == xs[..n] == (xs + ys)[..n];
    }
  }

  /** The first `n` of a sequence that starts with `x`, when `x` has `n` elements. */
  lemma TakeOfExtension<T>(n: nat, all: seq<T>, mid: seq<T>, x: seq<T>, y: seq<T>, z: seq<T>)
    requires all == mid + z && mid == x + y && n <= |x|
    ensures Take(n, all) == Take(n, x)
  {
    assert all == x + (y + z);
    TakePrefix(n, x, y + z);
  }

  /** Once `n` elements are there, more at the end change nothing. */
  lemma TakePrefix<T>(n: nat, xs: seq<T>, ys: seq<T>)
    requires n <= |xs|
    ensures Take(n, xs + ys) == Take(n, xs)
  {
    assert (xs + ys)[..n] == xs[..n];
  }

  /** `xs.slice(-n)` for `n > 0`: the last `n` elements, or all of them when there
      are fewer. */
  function LastN<T>(n: nat, xs: seq<T>): (r: seq<T>)
    ensures |r| == if n <= |xs| then n else |xs|
    ensures xs == xs[..|xs| - |r|] + r
  {
    if n <= |xs| then xs[|xs| - n..] else xs
  }

  /** The last `n` elements lie in the part that is at least `n` long. */
  lemma LastNSuffix<T>(n: nat, xs: seq<T>, ys: seq<T>)
    requires n <= |ys|
    ensures LastN(n, xs + ys) == LastN(n, ys)
  {
    assert (xs + ys)[|xs| + |ys| - n..] == ys[|ys| - n..];
  }

  /** Reversing the last `n` elements: entry `i` is the `i`-th from the end. */
  lemma ReverseLastN<T>(n: nat, xs: seq<T>)
    ensures forall i :: 0 <= i < |LastN(n, xs)| ==> Reverse(LastN(n, xs))[i] == xs[|xs| - 1 - i]
  {
    var last := LastN(n, xs);
    var d := |xs| - |last|;
    assert last == xs[d..];
    forall i | 0 <= i < |last| ensures Reverse(last)[i] == xs[|xs| - 1 - i] {
      var k := |last| - 1 - i;
      assert Reverse(last)[i] == last[k];
      assert last[k] == xs[d + k];
    }
  }

  lemma ReverseMember<T>(xs: seq<T>, x: T)
    ensures x in Reverse(xs) <==> x in xs
  {
    if x in Reverse(xs) {
      var i :| 0 <= i < |xs| && Reverse(xs)[i] == x;
      assert xs[|xs| - 1 - i] == x;
    }
    if x in xs {
      var i :| 0 <= i < |xs| && xs[i] == x;
      assert Reverse(xs)[|xs| - 1 - i] == x;
    }
  }

  /** What the unfiltered tail is made of: entries of `xs` that pass. */
  lemma ReverseLastNFilterMember<T>(p: T -> bool, n: nat, xs: seq<T>, x: T)
    requires x in Reverse(LastN(n, Filter(p, xs)))
    ensures x in xs && p(x)
  {
    var f := Filter(p, xs);
    ReverseMember(LastN(n, f), x);
    assert x in f;
    FilterMember(p, xs, x);
  }

  /** What the filtered tail is made of: entries of `xs` that pass. */
  lemma TakeFilterReverseMember<T>(p: T -> bool, n: nat, xs: seq<T>, x: T)
    requires x in Take(n, Filter(p, Reverse(xs)))
    ensures x in xs && p(x)
  {
    assert x in Filter(p, Reverse(xs));
    FilterMember(p, Reverse(xs), x);
    ReverseMember(xs, x);
  }

  /** Regrouping a three-part concatenation, stated on an abstract element type:
      on strings the same step is far more expensive for the solver. */
  lemma Regroup<T>(h: seq<T>, x: seq<T>, y: seq<T>, t: seq<T>, l1: seq<T>, l2: seq<T>)
    requires l1 == h + x && x == y + t && l2 == h + y
    ensures l1 == l2 + t
  {
  }

  lemma SliceJoin<T>(s: seq<T>, i: nat, j: nat)
    requires i <= j <= |s|
    ensures s[i..j] + s[j..] == s[i..]
  {
  }

  /** One more candidate for a bounded filter: it is added when it passes and
      there is room. */
  lemma TakeFilterSnoc<T>(p: T -> bool, n: nat, lines: seq<T>, seen: seq<T>, x: T, collected: seq<T>)
    requires |lines| <= n
    requires collected == Take(n, lines + Filter(p, seen))
    ensures (if p(x) && |collected| < n then collected + [x] else collected)
         == Take(n, lines + Filter(p, seen + [x]))
  {
    FilterConcat(p, seen, [x]);
    var f := Filter(p, seen);
    assert Filter(p, [x]) == if p(x) then [x] else [];
    assert lines + Filter(p, seen + [x]) == (lines + f) + Filter(p, [x]);
    if |lines + f| >= n {
      TakePrefix(n, lines + f, Filter(p, [x]));
    }
  }

  /** The last `n` kept elements of `[h] + xs` when `xs` ends some `ys` and already
      holds more than `n` kept elements, are those of `[g] + ys`. */
  lemma LastNFilterSuffix<T>(p: T -> bool, n: nat, h: T, xs: seq<T>, g: T, ys: seq<T>)
    requires IsSuffix(xs, ys)
    requires |Filter(p, [h] + xs)| > n
    ensures LastN(n, Filter(p, [g] + ys)) == LastN(n, Filter(p, [h] + xs))
  {
    var x := ys[..|ys| - |xs|];
    assert ys == x + xs;
    assert [g] + ys == ([g] + x) + xs;
    FilterConcat(p, [h], xs);
    FilterConcat(p, [g] + x, xs);
    assert |Filter(p, [h])| <= 1;
    LastNSuffix(n, Filter(p, [h]), Filter(p, xs));
    LastNSuffix(n, Filter(p, [g] + x), Filter(p, xs));
  }

  /** `x` is what remains of `y` after dropping some prefix. */
  predicate IsSuffix<T(==)>(x: seq<T>, y: seq<T>) {
    |x| <= |y| && y[|y| - |x|..] == x
  }

  lemma SuffixTrans<T>(x: seq<T>, y: seq<T>, z: seq<T>)
    requires IsSuffix(x, y) && IsSuffix(y, z)
    ensures IsSuffix(x, z)
  {
    assert z[|z| - |x|..] == z[|z| - |y|..][|y| - |x|..];
  }
}

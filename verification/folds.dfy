/**
 Left fold and order-preserving filter over sequences: the reference meanings
 of aggregating over, and collecting from, a visitation order.
 */
module Folds {

  /** `f` applied left to right over `s`, starting from `z`. */
  function FoldLeft<S, T>(f: (S, T) -> S, z: S, s: seq<T>): S
    decreases |s|
  {
    if |s| == 0 then z else FoldLeft(f, f(z, s[0]), s[1..])
  }

  /** Folding one more element on the right applies `f` once more to the running value. */
  lemma {:induction false} FoldLeftSnoc<S, T>(f: (S, T) -> S, z: S, s: seq<T>, x: T)
    ensures FoldLeft(f, z, s + [x]) == f(FoldLeft(f, z, s), x)
    decreases |s|
  {
    if |s| == 0 {
      assert (s + [x])[1..] == [];
    } else {
      assert (s + [x])[0] == s[0];
      assert (s + [x])[1..] == s[1..] + [x];
      FoldLeftSnoc(f, f(z, s[0]), s[1..], x);
    }
  }

  /** An accumulator that ignores every element leaves the seed unchanged. */
  lemma {:induction false} FoldLeftIgnoring<S, T>(f: (S, T) -> S, z: S, s: seq<T>)
    requires forall acc, x :: f(acc, x) == acc
    ensures FoldLeft(f, z, s) == z
    decreases |s|
  {
    if |s| != 0 {
      FoldLeftIgnoring(f, f(z, s[0]), s[1..]);
    }
  }

  /** An accumulator that adds one per element ends at the seed plus the length. */
  lemma {:induction false} FoldLeftCounting<T>(f: (int, T) -> int, z: int, s: seq<T>)
    requires forall acc, x :: f(acc, x) == acc + 1
    ensures FoldLeft(f, z, s) == z + |s|
    decreases |s|
  {
    if |s| != 0 {
      FoldLeftCounting(f, f(z, s[0]), s[1..]);
    }
  }

  /** The elements of `s` satisfying `p`, in their order in `s`. */
  function Filter<T>(p: T -> bool, s: seq<T>): (r: seq<T>)
    ensures |r| <= |s|
    decreases |s|
  {
    if |s| == 0 then []
    else if p(s[0]) then [s[0]] + Filter(p, s[1..])
    else Filter(p, s[1..])
  }

  /** An element is kept exactly when it occurs in the input and passes `p`. */
  lemma {:induction false} FilterMembership<T>(p: T -> bool, s: seq<T>, x: T)
    ensures x in Filter(p, s) <==> x in s && p(x)
    decreases |s|
  {
    if |s| != 0 {
      FilterMembership(p, s[1..], x);
      assert s == [s[0]] + s[1..];
    }
  }

  /** Filtering distributes over concatenation, so relative order is kept. */
  lemma {:induction false} FilterAppend<T>(p: T -> bool, a: seq<T>, b: seq<T>)
    ensures Filter(p, a + b) == Filter(p, a) + Filter(p, b)
    decreases |a|
  {
    if |a| == 0 {
      assert a + b == b;
    } else {
      assert (a + b)[0] == a[0];
      assert (a + b)[1..] == a[1..] + b;
      FilterAppend(p, a[1..], b);
    }
  }

  /** Each element satisfying `p` is kept as often as it occurs; the others never. */
  lemma {:induction false} FilterMultiplicity<T>(p: T -> bool, s: seq<T>, x: T)
    ensures multiset(Filter(p, s))[x] == if p(x) then multiset(s)[x] else 0
    decreases |s|
  {
    if |s| != 0 {
      FilterMultiplicity(p, s[1..], x);
      assert s == [s[0]] + s[1..];
    }
  }

  lemma {:induction false} FilterNone<T>(p: T -> bool, s: seq<T>)
    requires forall x :: !p(x)
    ensures Filter(p, s) == []
    decreases |s|
  {
    if |s| != 0 {
      FilterNone(p, s[1..]);
    }
  }

  lemma {:induction false} FilterAll<T>(p: T -> bool, s: seq<T>)
    requires forall x :: p(x)
    ensures Filter(p, s) == s
    decreases |s|
  {
    if |s| != 0 {
      FilterAll(p, s[1..]);
      assert s == [s[0]] + s[1..];
    }
  }
}

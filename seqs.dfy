/** Order-preserving selection, what every filtering pass returns, and the
    map-then-filter shape of the URL tokeniser. */
module Seqs {

  /** Concatenation regrouped, for the places where the solver needs it said. */
  lemma AppendAssoc<T>(a: seq<T>, b: seq<T>, c: seq<T>)
    ensures a + b + c == a + (b + c)
  {
  }

  lemma AppendAssoc3<T>(a: seq<T>, b: seq<T>, c: seq<T>, d: seq<T>)
    ensures a + b + c + d == a + (b + c + d)
  {
  }

  /** `a` is `b` with some elements left out, the rest in their original order. */
  predicate IsSubsequence<T(==)>(a: seq<T>, b: seq<T>)
    decreases |b|
  {
    a == [] || (b != [] && ((a[0] == b[0] && IsSubsequence(a[1..], b[1..])) || IsSubsequence(a, b[1..])))
  }

  lemma {:induction false} SubsequenceRefl<T>(a: seq<T>)
    ensures IsSubsequence(a, a)
    decreases |a|
  {
    if a != [] { SubsequenceRefl(a[1..]); }
  }

  lemma {:induction false} SubsequenceLength<T>(a: seq<T>, b: seq<T>)
    requires IsSubsequence(a, b)
    ensures |a| <= |b|
    decreases |b|
  {
    if a != [] {
      if a[0] == b[0] && IsSubsequence(a[1..], b[1..]) {
        SubsequenceLength(a[1..], b[1..]);
      } else {
        SubsequenceLength(a, b[1..]);
      }
    }
  }

  /** Every element kept by a selection is an element of the original. */
  lemma {:induction false} SubsequenceMembers<T>(a: seq<T>, b: seq<T>, x: T)
    requires IsSubsequence(a, b) && x in a
    ensures x in b
    decreases |b|
  {
    if a[0] == b[0] && IsSubsequence(a[1..], b[1..]) {
      if x != a[0] { SubsequenceMembers(a[1..], b[1..], x); }
    } else {
      SubsequenceMembers(a, b[1..], x);
    }
  }

  /** Leaving out one more element at the end keeps a selection. */
  lemma {:induction false} SubsequenceSkipLast<T>(a: seq<T>, b: seq<T>, x: T)
    requires IsSubsequence(a, b)
    ensures IsSubsequence(a, b + [x])
    decreases |b|
  {
    if a != [] {
      assert (b + [x])[0] == b[0] && (b + [x])[1..] == b[1..] + [x];
      if a[0] == b[0] && IsSubsequence(a[1..], b[1..]) {
        SubsequenceSkipLast(a[1..], b[1..], x);
      } else {
        SubsequenceSkipLast(a, b[1..], x);
      }
    }
  }

  /** Keeping one more element at the end keeps a selection. */
  lemma {:induction false} SubsequenceTakeLast<T>(a: seq<T>, b: seq<T>, x: T)
    requires IsSubsequence(a, b)
    ensures IsSubsequence(a + [x], b + [x])
    decreases |b|
  {
    if a == [] {
      SubsequenceEmptyPrefix(b, [x]);
      assert a + [x] == [x];
    } else {
      assert (a + [x])[0] == a[0] && (a + [x])[1..] == a[1..] + [x];
      assert (b + [x])[0] == b[0] && (b + [x])[1..] == b[1..] + [x];
      if a[0] == b[0] && IsSubsequence(a[1..], b[1..]) {
        SubsequenceTakeLast(a[1..], b[1..], x);
      } else {
        SubsequenceTakeLast(a, b[1..], x);
      }
    }
  }

  /** Elements in front of the original may all be left out. */
  lemma {:induction false} SubsequenceEmptyPrefix<T>(p: seq<T>, a: seq<T>)
    ensures IsSubsequence(a, p + a)
    decreases |p|
  {
    if p != [] && a != [] {
      assert (p + a)[1..] == p[1..] + a;
      SubsequenceEmptyPrefix(p[1..], a);
    } else if p == [] {
      SubsequenceRefl(a);
      assert p + a == a;
    }
  }

  lemma {:induction false} SubsequenceTrans<T>(a: seq<T>, b: seq<T>, c: seq<T>)
    requires IsSubsequence(a, b) && IsSubsequence(b, c)
    ensures IsSubsequence(a, c)
    decreases |c|
  {
    if a != [] {
      assert b != [];
      if b[0] == c[0] && IsSubsequence(b[1..], c[1..]) {
        if a[0] == b[0] && IsSubsequence(a[1..], b[1..]) {
          SubsequenceTrans(a[1..], b[1..], c[1..]);
        } else {
          SubsequenceTrans(a, b[1..], c[1..]);
        }
      } else {
        SubsequenceTrans(a, b, c[1..]);
      }
    }
  }

  // ---------------------------------------------------------------- flat map

  /** Each element replaced by the (possibly empty) sequence `f` gives for it. */
  function FlatMap<T, U>(f: T -> seq<U>, xs: seq<T>): seq<U>
    decreases |xs|
  {
    if xs == [] then [] else f(xs[0]) + FlatMap(f, xs[1..])
  }

  lemma {:induction false} FlatMapAppend<T, U>(f: T -> seq<U>, a: seq<T>, b: seq<T>)
    ensures FlatMap(f, a + b) == FlatMap(f, a) + FlatMap(f, b)
    decreases |a|
  {
    if a == [] {
      assert a + b == b;
    } else {
      assert (a + b)[0] == a[0] && (a + b)[1..] == a[1..] + b;
      FlatMapAppend(f, a[1..], b);
    }
  }

  /** Where `f` keeps every element as it is, the flat map is the identity. */
  lemma {:induction false} FlatMapSingletons<T>(f: T -> seq<T>, xs: seq<T>)
    requires forall k :: 0 <= k < |xs| ==> f(xs[k]) == [xs[k]]
    ensures FlatMap(f, xs) == xs
    decreases |xs|
  {
    if xs != [] {
      FlatMapSingletons(f, xs[1..]);
      assert [xs[0]] + xs[1..] == xs;
    }
  }

  /** Where `f` drops every element, nothing is left. */
  lemma {:induction false} FlatMapNothing<T, U>(f: T -> seq<U>, xs: seq<T>)
    requires forall k :: 0 <= k < |xs| ==> f(xs[k]) == []
    ensures FlatMap(f, xs) == []
    decreases |xs|
  {
    if xs != [] {
      FlatMapNothing(f, xs[1..]);
    }
  }
}

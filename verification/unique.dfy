/** First-seen-order deduplication: the `seen`-set loop the parser and the
    CSV cleanup both run. */
module Unique {

  /** No element occurs twice. */
  predicate Distinct<T(==,!new)>(xs: seq<T>) {
    forall i, j :: 0 <= i < j < |xs| ==> xs[i] != xs[j]
  }

  lemma ConcatAssoc<T>(a: seq<T>, b: seq<T>, c: seq<T>)
    ensures a + (b + c) == a + b + c
  {
  }

  /** Position of the first occurrence of `x` in `xs`. */
  function FirstIndex<T(==,!new)>(xs: seq<T>, x: T): (i: nat)
    requires x in xs
    ensures i < |xs| && xs[i] == x
    ensures forall k :: 0 <= k < i ==> xs[k] != x
  {
    if xs[0] == x then 0 else 1 + FirstIndex(xs[1..], x)
  }

  /** The elements of `r` appear in the order of their first occurrence in `xs`. */
  predicate FirstSeenOrder<T(==,!new)>(r: seq<T>, xs: seq<T>) {
    forall i, j :: 0 <= i < j < |r| && r[i] in xs && r[j] in xs ==>
      FirstIndex(xs, r[i]) < FirstIndex(xs, r[j])
  }

  /** Walks `xs` left to right keeping each element not yet in `seen`, and
      adds every kept element to `seen`. */
  function DedupeFrom<T(==,!new)>(xs: seq<T>, seen: set<T>): (r: seq<T>)
    ensures Distinct(r)
    ensures forall x :: x in r <==> x in xs && x !in seen
    decreases |xs|
  {
    if xs == [] then []
    else if xs[0] in seen then DedupeFrom(xs[1..], seen)
    else [xs[0]] + DedupeFrom(xs[1..], seen + {xs[0]})
  }

  /** The deduplication of `xs` starting from an empty `seen` set. */
  function Dedupe<T(==,!new)>(xs: seq<T>): (r: seq<T>)
    ensures Distinct(r)
    ensures forall x :: x in r <==> x in xs
  {
    DedupeFrom(xs, {})
  }

  lemma FirstIndexTail<T(!new)>(xs: seq<T>, y: T)
    requires xs != [] && y in xs[1..] && y != xs[0]
    ensures FirstIndex(xs, y) == 1 + FirstIndex(xs[1..], y)
  {
  }

  /** If the first element of `xs` is not among `r`, then ordering `r` by
      first occurrence in `xs[1..]` orders it by first occurrence in `xs`. */
  lemma FirstSeenOrderTail<T(!new)>(r: seq<T>, xs: seq<T>)
    requires xs != [] && FirstSeenOrder(r, xs[1..])
    requires forall y :: y in r ==> y in xs[1..] && y != xs[0]
    ensures FirstSeenOrder(r, xs)
  {
    forall i, j | 0 <= i < j < |r| && r[i] in xs && r[j] in xs
      ensures FirstIndex(xs, r[i]) < FirstIndex(xs, r[j])
    {
      FirstIndexTail(xs, r[i]);
      FirstIndexTail(xs, r[j]);
    }
  }

  /** Putting the first element of `xs` in front keeps first-seen order. */
  lemma FirstSeenOrderCons<T(!new)>(r: seq<T>, xs: seq<T>)
    requires xs != [] && FirstSeenOrder(r, xs)
    requires forall y :: y in r ==> y != xs[0]
    ensures FirstSeenOrder([xs[0]] + r, xs)
  {
    var r' := [xs[0]] + r;
    forall i, j | 0 <= i < j < |r'| && r'[i] in xs && r'[j] in xs
      ensures FirstIndex(xs, r'[i]) < FirstIndex(xs, r'[j])
    {
      assert r'[j] == r[j - 1] && r[j - 1] in r;
      if i > 0 {
        assert r'[i] == r[i - 1];
      } else {
        assert FirstIndex(xs, r'[i]) == 0;
      }
    }
  }

  lemma {:induction false} DedupeFromFirstSeen<T(!new)>(xs: seq<T>, seen: set<T>)
    ensures FirstSeenOrder(DedupeFrom(xs, seen), xs)
    decreases |xs|
  {
    if xs != [] {
      if xs[0] in seen {
        DedupeFromFirstSeen(xs[1..], seen);
        FirstSeenOrderTail(DedupeFrom(xs[1..], seen), xs);
      } else {
        var r' := DedupeFrom(xs[1..], seen + {xs[0]});
        DedupeFromFirstSeen(xs[1..], seen + {xs[0]});
        FirstSeenOrderTail(r', xs);
        FirstSeenOrderCons(r', xs);
      }
    }
  }

  /** Every element `Dedupe` keeps is one of `xs`'s, and they come out in the
      order in which each first occurs in `xs`. */
  lemma DedupeFirstSeen<T(!new)>(xs: seq<T>)
    ensures FirstSeenOrder(Dedupe(xs), xs)
  {
    DedupeFromFirstSeen(xs, {});
  }

  /** Appending one element to the input appends it to the output exactly
      when it is new: the step the imperative loop takes. */
  lemma {:induction false} DedupeFromSnoc<T(!new)>(xs: seq<T>, x: T, seen: set<T>)
    ensures DedupeFrom(xs + [x], seen)
         == DedupeFrom(xs, seen) + (if x in xs || x in seen then [] else [x])
    decreases |xs|
  {
    if xs == [] {
      assert xs + [x] == [x];
    } else {
      var ys := xs + [x];
      assert ys[0] == xs[0];
      assert ys[1..] == xs[1..] + [x];
      assert x in xs <==> x == xs[0] || x in xs[1..];
      if xs[0] in seen {
        assert DedupeFrom(ys, seen) == DedupeFrom(xs[1..] + [x], seen);
        DedupeFromSnoc(xs[1..], x, seen);
      } else {
        var seen' := seen + {xs[0]};
        var tail := if x in xs[1..] || x in seen' then [] else [x];
        assert DedupeFrom(ys, seen) == [xs[0]] + DedupeFrom(xs[1..] + [x], seen');
        DedupeFromSnoc(xs[1..], x, seen');
        ConcatAssoc([xs[0]], DedupeFrom(xs[1..], seen'), tail);
      }
    }
  }

  lemma {:induction false} DedupeFromOfDistinct<T(!new)>(xs: seq<T>, seen: set<T>)
    requires Distinct(xs)
    requires forall x :: x in xs ==> x !in seen
    ensures DedupeFrom(xs, seen) == xs
    decreases |xs|
  {
    if xs != [] {
      assert xs[0] !in xs[1..];
      DedupeFromOfDistinct(xs[1..], seen + {xs[0]});
      assert [xs[0]] + xs[1..] == xs;
    }
  }

  /** `Dedupe` leaves a sequence alone exactly when it has no duplicates. */
  lemma DedupeFixedPoint<T(!new)>(xs: seq<T>)
    ensures Dedupe(xs) == xs <==> Distinct(xs)
  {
    if Distinct(xs) {
      DedupeFromOfDistinct(xs, {});
    }
  }

  /** Deduplicating twice is deduplicating once. */
  lemma DedupeIdempotent<T(!new)>(xs: seq<T>)
    ensures Dedupe(Dedupe(xs)) == Dedupe(xs)
  {
    DedupeFixedPoint(Dedupe(xs));
  }
}

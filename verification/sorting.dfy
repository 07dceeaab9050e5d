/**
  A stable sort, standing for JavaScript's `Array.prototype.sort` with a comparator:
  `leq(a, b)` holds when the comparator says `a` may come before `b` (it returns a
  value <= 0). Since ES2019 the language requires the sort to be stable, so the
  result is fixed by three facts proved here: it is ordered, it is a permutation of
  the input, and elements the comparator calls equal keep their input order.
*/
module Sorting {

  /** A comparator that is total and transitive, as `sort` demands of its argument. */
  ghost predicate TotalPreorder<T(!new)>(leq: (T, T) -> bool) {
    && (forall a, b :: leq(a, b) || leq(b, a))
    && (forall a, b, c :: leq(a, b) && leq(b, c) ==> leq(a, c))
  }

  /** Every element may come before every later one. */
  ghost predicate SortedBy<T>(s: seq<T>, leq: (T, T) -> bool) {
    forall i, j :: 0 <= i < j < |s| ==> leq(s[i], s[j])
  }

  /** `a` and `b` compare equal. */
  predicate Equivalent<T>(leq: (T, T) -> bool, a: T, b: T) {
    leq(a, b) && leq(b, a)
  }

  /** The elements of `s` that compare equal to `e`, in their order in `s`. */
  function EquivalentTo<T>(s: seq<T>, e: T, leq: (T, T) -> bool): (r: seq<T>)
    ensures |r| <= |s|
  {
    if s == [] then []
    else (if Equivalent(leq, s[0], e) then [s[0]] else []) + EquivalentTo(s[1..], e, leq)
  }

  /** Places `x` in front of the first element it may come before. */
  function Insert<T>(x: T, s: seq<T>, leq: (T, T) -> bool): (r: seq<T>)
    ensures multiset(r) == multiset(s) + multiset{x}
  {
    if s == [] || leq(x, s[0]) then [x] + s
    else
      assert s == [s[0]] + s[1..];
      [s[0]] + Insert(x, s[1..], leq)
  }

  /** Insertion sort. */
  function SortBy<T>(s: seq<T>, leq: (T, T) -> bool): (r: seq<T>)
    ensures multiset(r) == multiset(s)
  {
    if s == [] then []
    else
      assert s == [s[0]] + s[1..];
      Insert(s[0], SortBy(s[1..], leq), leq)
  }

  lemma {:induction false} InsertSorted<T(!new)>(x: T, s: seq<T>, leq: (T, T) -> bool)
    requires TotalPreorder(leq) && SortedBy(s, leq)
    ensures SortedBy(Insert(x, s, leq), leq)
  {
    if s == [] || leq(x, s[0]) {
      var r := [x] + s;
      forall i, j | 0 <= i < j < |r| ensures leq(r[i], r[j]) {
        if i == 0 && j > 1 { assert leq(s[0], s[j - 1]); }
      }
    } else {
      InsertSorted(x, s[1..], leq);
      var t := Insert(x, s[1..], leq);
      var r := [s[0]] + t;
      assert multiset(t) == multiset(s[1..]) + multiset{x};
      forall j | 0 <= j < |t| ensures leq(s[0], t[j]) {
        assert t[j] in multiset(t);
        if t[j] != x {
          assert t[j] in multiset(s[1..]);
          var k :| 0 <= k < |s[1..]| && s[1..][k] == t[j];
          assert leq(s[0], s[k + 1]);
        }
      }
      forall i, j | 0 <= i < j < |r| ensures leq(r[i], r[j]) {
        if i > 0 { assert leq(t[i - 1], t[j - 1]); }
      }
    }
  }

  /** The sort orders its output by any total preorder. */
  lemma {:induction false} SortBySorted<T(!new)>(s: seq<T>, leq: (T, T) -> bool)
    requires TotalPreorder(leq)
    ensures SortedBy(SortBy(s, leq), leq)
  {
    if s != [] {
      SortBySorted(s[1..], leq);
      InsertSorted(s[0], SortBy(s[1..], leq), leq);
    }
  }

  lemma EquivalentToCons<T>(y: T, s: seq<T>, e: T, leq: (T, T) -> bool)
    ensures EquivalentTo([y] + s, e, leq) == (if Equivalent(leq, y, e) then [y] else []) + EquivalentTo(s, e, leq)
  {
    assert ([y] + s)[1..] == s;
  }

  /** An element that may not come before `y` cannot compare equal to what `y` does. */
  lemma NotBothEquivalent<T(!new)>(x: T, y: T, e: T, leq: (T, T) -> bool)
    requires TotalPreorder(leq)
    requires !leq(x, y)
    ensures !(Equivalent(leq, x, e) && Equivalent(leq, y, e))
  {
  }

  lemma SwapFront<T>(xs: seq<T>, ys: seq<T>, r: seq<T>)
    requires xs == [] || ys == []
    ensures ys + (xs + r) == xs + (ys + r)
  {
    if xs == [] {
      assert ys + ([] + r) == [] + (ys + r);
    } else {
      assert [] + (xs + r) == xs + ([] + r);
    }
  }

  lemma {:induction false} InsertStable<T(!new)>(x: T, s: seq<T>, e: T, leq: (T, T) -> bool)
    requires TotalPreorder(leq)
    ensures EquivalentTo(Insert(x, s, leq), e, leq)
         == (if Equivalent(leq, x, e) then [x] else []) + EquivalentTo(s, e, leq)
  {
    if s == [] || leq(x, s[0]) {
      EquivalentToCons(x, s, e, leq);
    } else {
      var t := Insert(x, s[1..], leq);
      var xs := if Equivalent(leq, x, e) then [x] else [];
      var ys := if Equivalent(leq, s[0], e) then [s[0]] else [];
      var r := EquivalentTo(s[1..], e, leq);
      InsertStable(x, s[1..], e, leq);
      assert Insert(x, s, leq) == [s[0]] + t;
      EquivalentToCons(s[0], t, e, leq);
      NotBothEquivalent(x, s[0], e, leq);
      SwapFront(xs, ys, r);
    }
  }

  /**
    Stability: for every `e`, the elements that compare equal to `e` appear in the
    output in exactly the order they have in the input.
  */
  lemma {:induction false} SortByStable<T(!new)>(s: seq<T>, e: T, leq: (T, T) -> bool)
    requires TotalPreorder(leq)
    ensures EquivalentTo(SortBy(s, leq), e, leq) == EquivalentTo(s, e, leq)
  {
    if s != [] {
      SortByStable(s[1..], e, leq);
      InsertStable(s[0], SortBy(s[1..], leq), e, leq);
    }
  }
}

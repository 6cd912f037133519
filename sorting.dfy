/**
 * `sortAlphabetically` (app.js:57-60): copy the array, then sort it with a
 * comparator on names. The comparator is any total preorder here; the one the
 * widget uses compares lower-cased names.
 */
module Sorting {
  import opened Text
  import opened Sequences
  import opened Products

  /** What `Array.prototype.sort` needs of a comparator: every pair is ordered, and consistently. */
  ghost predicate TotalPreorder<T(!new)>(leq: (T, T) -> bool) {
    Total(leq) && Transitive(leq)
  }

  ghost predicate Total<T(!new)>(leq: (T, T) -> bool) {
    forall a, b :: leq(a, b) || leq(b, a)
  }

  ghost predicate Transitive<T(!new)>(leq: (T, T) -> bool) {
    forall a, b, c :: leq(a, b) && leq(b, c) ==> leq(a, c)
  }

  ghost predicate Sorted<T>(s: seq<T>, leq: (T, T) -> bool) {
    forall i, j :: 0 <= i < j < |s| ==> leq(s[i], s[j])
  }

  /** The elements the comparator cannot tell apart from `k`. */
  function EquivalentTo<T>(leq: (T, T) -> bool, k: T): T -> bool {
    (y: T) => leq(y, k) && leq(k, y)
  }

  /** Puts `x` in front of the first element it is not greater than. */
  function Insert<T>(x: T, s: seq<T>, leq: (T, T) -> bool): (r: seq<T>)
    ensures multiset(r) == multiset(s) + multiset{x}
  {
    if s == [] then [x]
    else if leq(x, s[0]) then [x] + s
    else
      assert s == [s[0]] + s[1..];
      [s[0]] + Insert(x, s[1..], leq)
  }

  /** A lower bound of `x` and of every element of `s` bounds the result of inserting `x`. */
  lemma {:induction false} InsertBounded<T>(b: T, x: T, s: seq<T>, leq: (T, T) -> bool)
    requires leq(b, x)
    requires forall i :: 0 <= i < |s| ==> leq(b, s[i])
    ensures forall j :: 0 <= j < |Insert(x, s, leq)| ==> leq(b, Insert(x, s, leq)[j])
  {
    if s != [] && !leq(x, s[0]) {
      InsertBounded(b, x, s[1..], leq);
    }
  }

  lemma {:induction false} InsertSorted<T(!new)>(x: T, s: seq<T>, leq: (T, T) -> bool)
    requires TotalPreorder(leq)
    requires Sorted(s, leq)
    ensures Sorted(Insert(x, s, leq), leq)
  {
    if s == [] {
    } else if leq(x, s[0]) {
      var r := Insert(x, s, leq);
      forall j | 0 < j < |r| ensures leq(x, r[j]) {
        if j > 1 {
          assert leq(s[0], s[j - 1]);
        }
      }
    } else {
      InsertSorted(x, s[1..], leq);
      assert leq(s[0], x);
      InsertBounded(s[0], x, s[1..], leq);
    }
  }

  /** A stable sort by `leq` (insertion sort); `Array.prototype.sort` is stable. */
  function SortBy<T(!new)>(s: seq<T>, leq: (T, T) -> bool): (r: seq<T>)
    requires TotalPreorder(leq)
    ensures multiset(r) == multiset(s)
    ensures Sorted(r, leq)
  {
    if s == [] then []
    else
      assert s == [s[0]] + s[1..];
      InsertSorted(s[0], SortBy(s[1..], leq), leq);
      Insert(s[0], SortBy(s[1..], leq), leq)
  }

  /** An element strictly below one equivalent to `k` is not itself equivalent to `k`. */
  lemma BelowEquivalent<T(!new)>(x: T, y: T, leq: (T, T) -> bool, k: T)
    requires Transitive(leq)
    requires !leq(x, y)
    ensures EquivalentTo(leq, k)(y) ==> !EquivalentTo(leq, k)(x)
  {
  }

  /** The inductive step of InsertStable, once `x` and `s[0]` are known not to be both equivalent to `k`. */
  lemma InsertStableStep<T>(x: T, s: seq<T>, leq: (T, T) -> bool, p: T -> bool)
    requires s != [] && !leq(x, s[0])
    requires !(p(s[0]) && p(x))
    requires Filter(Insert(x, s[1..], leq), p) == Filter([x] + s[1..], p)
    ensures Filter(Insert(x, s, leq), p) == Filter([x] + s, p)
  {
    var t := Insert(x, s[1..], leq);
    var a := if p(s[0]) then [s[0]] else [];
    var b := if p(x) then [x] else [];
    var rest := Filter(s[1..], p);
    calc {
      Filter(Insert(x, s, leq), p);
      Filter([s[0]] + t, p);
      { FilterCons(s[0], t, p); }
      a + Filter(t, p);
      { FilterCons(x, s[1..], p); }
      a + (b + rest);
      b + (a + rest);
      { assert s == [s[0]] + s[1..]; FilterCons(s[0], s[1..], p); }
      b + Filter(s, p);
      { FilterCons(x, s, p); }
      Filter([x] + s, p);
    }
  }

  lemma {:induction false} InsertStable<T(!new)>(x: T, s: seq<T>, leq: (T, T) -> bool, k: T)
    requires Transitive(leq)
    ensures Filter(Insert(x, s, leq), EquivalentTo(leq, k)) == Filter([x] + s, EquivalentTo(leq, k))
  {
    if s != [] && !leq(x, s[0]) {
      InsertStable(x, s[1..], leq, k);
      BelowEquivalent(x, s[0], leq, k);
      InsertStableStep(x, s, leq, EquivalentTo(leq, k));
    }
  }

  /** Sorting keeps the relative order of the elements the comparator ranks equal. */
  lemma {:induction false} SortByStable<T(!new)>(s: seq<T>, leq: (T, T) -> bool, k: T)
    requires TotalPreorder(leq)
    ensures Filter(SortBy(s, leq), EquivalentTo(leq, k)) == Filter(s, EquivalentTo(leq, k))
  {
    if s != [] {
      SortByStable(s[1..], leq, k);
      InsertStable(s[0], SortBy(s[1..], leq), leq, k);
      assert ([s[0]] + SortBy(s[1..], leq))[1..] == SortBy(s[1..], leq);
      assert s == [s[0]] + s[1..];
    }
  }

  /** The name comparison of the sort, with case ignored: `a` does not come after `b`. */
  predicate NameLeq(a: Product, b: Product) {
    LexLeq(Lower(a.name), Lower(b.name))
  }

  lemma NameLeqTotalPreorder()
    ensures TotalPreorder(NameLeq)
  {
    forall a: Product, b: Product ensures NameLeq(a, b) || NameLeq(b, a) {
      LexLeqTotal(Lower(a.name), Lower(b.name));
    }
    forall a: Product, b: Product, c: Product | NameLeq(a, b) && NameLeq(b, c) ensures NameLeq(a, c) {
      LexLeqTransitive(Lower(a.name), Lower(b.name), Lower(c.name));
    }
  }

  /** `[...array].sort(byName)`: a sorted permutation of the input, which itself is left as it was. */
  function SortAlphabetically(data: seq<Product>): (r: seq<Product>)
    ensures multiset(r) == multiset(data)
    ensures Sorted(r, NameLeq)
  {
    NameLeqTotalPreorder();
    SortBy(data, NameLeq)
  }

  /** The products the name order cannot tell apart from `k` are those whose name equals `k`'s once lower-cased. */
  lemma EquivalentMeansSameLower(k: Product, y: Product)
    ensures EquivalentTo(NameLeq, k)(y) <==> Lower(y.name) == Lower(k.name)
  {
    var a, b := Lower(y.name), Lower(k.name);
    assert EquivalentTo(NameLeq, k)(y) == (NameLeq(y, k) && NameLeq(k, y));
    assert NameLeq(y, k) == LexLeq(a, b) && NameLeq(k, y) == LexLeq(b, a);
    if LexLeq(a, b) && LexLeq(b, a) {
      LexLeqAntisymmetric(a, b);
    }
    if a == b {
      LexLeqTotal(a, a);
    }
  }

  /** Products whose names differ only in case keep the order they had in the data. */
  lemma SortAlphabeticallyStable(data: seq<Product>, k: Product)
    ensures Filter(SortAlphabetically(data), EquivalentTo(NameLeq, k)) == Filter(data, EquivalentTo(NameLeq, k))
  {
    NameLeqTotalPreorder();
    SortByStable(data, NameLeq, k);
  }
}
